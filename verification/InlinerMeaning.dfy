/** Inlining preserves what every function computes. */
module InlinerMeaning {
  import opened Ir
  import opened Fallibles
  import opened Machine
  import opened Inliner

  // ----- frame sizes -----

  lemma {:induction false} LocalCountConcat(a: Body, b: Body)
    ensures LocalCount(a + b) ==
            (if LocalCount(a) > LocalCount(b) then LocalCount(a) else LocalCount(b))
  {
    if a == [] {
      assert a + b == b;
    } else {
      assert (a + b)[1..] == a[1..] + b;
      LocalCountConcat(a[1..], b);
    }
  }

  /** Spliced code names exactly the slots of its callee, moved up by `base`. */
  lemma {:induction false} SplicedCount(callee: Body, base: u64, keepsValue: bool)
    requires SpliceAll(callee, base, keepsValue).Ok?
    requires NoTopSlot(SpliceAll(callee, base, keepsValue).value)
    ensures LocalCount(callee) == 0 ==> LocalCount(SpliceAll(callee, base, keepsValue).value) == 0
    ensures LocalCount(callee) > 0 ==>
              LocalCount(SpliceAll(callee, base, keepsValue).value) == base + LocalCount(callee)
  {
    if callee != [] {
      var here := SpliceOne(callee[0], base, keepsValue).value;
      var rest := SpliceAll(callee[1..], base, keepsValue).value;
      assert forall i :: i in here || i in rest ==> i in here + rest;
      SplicedCount(callee[1..], base, keepsValue);
      LocalCountConcat(here, rest);
      if IsLocalOp(callee[0].op) {
        assert here[0] in here;
        assert here[1..] == [];
      }
    }
  }

  predicate Sized(s: State) {
    WellFormed(s) && forall g :: 0 <= g < |s.bodies| ==> s.counts[g] == LocalCount(s.bodies[g])
  }

  /** Slot reservation never wraps, and the reserved range is the one the code names. */
  lemma {:induction false} RewriteCount(s: State, f: nat, body: Body, next: u64)
    requires Sized(s) && Rewrite(s, f, body, next).Ok?
    requires LocalCount(body) <= next
    requires NoTopSlot(Rewrite(s, f, body, next).value.body)
    ensures var r := Rewrite(s, f, body, next).value;
            && next <= r.next
            && LocalCount(body) <= LocalCount(r.body) <= r.next
            && (next < r.next ==> LocalCount(r.body) == r.next)
  {
    if body != [] {
      var i := body[0];
      var r := Rewrite(s, f, body, next).value;
      if !IsInlineable(s, f, i) {
        var rest := Rewrite(s, f, body[1..], next).value;
        assert forall x :: x in rest.body ==> x in r.body;
        RewriteCount(s, f, body[1..], next);
        assert r.body[1..] == rest.body;
      } else {
        var code := Splice(s.bodies[i.imm], next, i.op == CALL).value;
        var next' := Add64(next, s.counts[i.imm]);
        var rest := Rewrite(s, f, body[1..], next').value;
        assert forall x :: x in code || x in rest.body ==> x in r.body;
        SplicedCount(s.bodies[i.imm], next, i.op == CALL);
        assert next' == next + s.counts[i.imm];
        RewriteCount(s, f, body[1..], next');
        LocalCountConcat(code, rest.body);
      }
    }
  }

  // ----- one instruction in a larger frame -----

  /** `large` holds the frame `small` at slots `base` and up. */
  predicate Embeds(small: seq<u64>, large: seq<u64>, base: nat) {
    base + |small| <= |large| && large[base..base + |small|] == small
  }

  /** `large'` differs from `large` only in `count` slots from `base` on. */
  predicate SameOutside(large: seq<u64>, large': seq<u64>, base: nat, count: nat) {
    && |large'| == |large|
    && forall k :: 0 <= k < |large| && !(base <= k < base + count) ==> large'[k] == large[k]
  }

  ghost predicate SameData<W>(d: Data<W>, e: Data<W>, base: nat) {
    e.stack == d.stack && e.world == d.world && Embeds(d.locals, e.locals, base)
  }

  lemma {:induction false} EmbedsUpdate(small: seq<u64>, large: seq<u64>, base: nat, k: nat, v: u64)
    requires Embeds(small, large, base) && k < |small|
    ensures Embeds(small[k := v], large[base + k := v], base)
    ensures SameOutside(large, large[base + k := v], base, |small|)
  {
    assert large[base + k := v][base..base + |small|] == small[k := v];
  }

  lemma {:induction false} OwnRead<W>(host: Host<W>, i: Instruction, d: Data<W>, e: Data<W>)
    requires SameData(d, e, 0) && ReadStep(host, i, d).Some?
    ensures ReadStep(host, i, e).Some?
    ensures var d', e' := ReadStep(host, i, d).value, ReadStep(host, i, e).value;
            && SameData(d', e', 0) && |d'.locals| == |d.locals|
            && SameOutside(e.locals, e'.locals, 0, |d.locals|)
  {
    var (r, w) := host.readByte(Top(d.stack), d.world);
    if r.Byte? {
      EmbedsUpdate(d.locals, e.locals, 0, i.imm, r.value);
    }
  }

  /** An instruction of the caller itself does the same in the enlarged frame. */
  lemma {:induction false} OwnStep<W>(host: Host<W>, i: Instruction, d: Data<W>, e: Data<W>)
    requires SameData(d, e, 0) && DataStep(host, i, d).Some?
    ensures DataStep(host, i, e).Some?
    ensures var d', e' := DataStep(host, i, d).value, DataStep(host, i, e).value;
            && SameData(d', e', 0) && |d'.locals| == |d.locals|
            && SameOutside(e.locals, e'.locals, 0, |d.locals|)
  {
    assert forall k :: 0 <= k < |d.locals| ==> e.locals[k] == e.locals[0..0 + |d.locals|][k];
    if i.op == STORE_LOCAL {
      EmbedsUpdate(d.locals, e.locals, 0, i.imm, Top(d.stack));
    } else if i.op == FILE_READ_BYTE {
      OwnRead(host, i, d, e);
    } else if i.op == STORE_INDIRECT && !IsTagged(d.stack[|d.stack| - 2]) {
      EmbedsUpdate(d.locals, e.locals, 0, d.stack[|d.stack| - 2] / 16, Top(d.stack));
    }
  }

  /** An instruction of a callee does in its own frame what its spliced form does in
      the slots reserved for it in the caller's. */
  lemma {:induction false} SplicedStep<W>(host: Host<W>, i: Instruction, base: u64, d: Data<W>, e: Data<W>)
    requires SameData(d, e, base) && |e.locals| < TWO64 && DataStep(host, i, d).Some?
    requires !IsReturn(i.op) && i.op != FILE_READ_BYTE && i.op != ADDRESS_OF_LOCAL
    requires i.op == LOAD_INDIRECT || i.op == STORE_INDIRECT ==>
               IsTagged(IndirectAddress(i.op, d.stack).value)
    requires SpliceOne(i, base, true).Ok?
    ensures |SpliceOne(i, base, true).value| == 1
    ensures DataStep(host, SpliceOne(i, base, true).value[0], e).Some?
    ensures var d', e' := DataStep(host, i, d).value, DataStep(host, SpliceOne(i, base, true).value[0], e).value;
            && SameData(d', e', base) && |d'.locals| == |d.locals|
            && SameOutside(e.locals, e'.locals, base, |d.locals|)
  {
    if i.op == LOAD_LOCAL {
      assert e.locals[base + i.imm] == e.locals[base..base + |d.locals|][i.imm];
    } else if i.op == STORE_LOCAL {
      EmbedsUpdate(d.locals, e.locals, base, i.imm, Top(d.stack));
    }
  }

  // ----- straight-line code -----

  predicate IsData(op: Opcode) { !IsJump(op) && !IsCall(op) && !IsReturn(op) }

  /** A data instruction that every guard permits. */
  predicate IsPlain(i: Instruction, stack: seq<u64>) {
    && IsData(i.op) && i.op != FILE_READ_BYTE && i.op != ADDRESS_OF_LOCAL
    && (i.op == LOAD_INDIRECT || i.op == STORE_INDIRECT ==>
          var a := IndirectAddress(i.op, stack); a.Some? ==> IsTagged(a.value))
  }

  /** Executes plain code from its first to its last instruction. */
  function Straight<W>(host: Host<W>, code: Body, d: Data<W>): Option<Data<W>> {
    if code == [] then Some(d)
    else if !IsPlain(code[0], d.stack) then None
    else
      match DataStep(host, code[0], d)
      case None => None
      case Some(d') => Straight(host, code[1..], d')
  }

  /** `code` stands in `body` from `pos` on. */
  predicate At(body: Body, pos: nat, code: Body) {
    pos + |code| <= |body| && body[pos..pos + |code|] == code
  }

  lemma {:induction false} StepOver<W>(host: Host<W>, g: Guards, bodies: seq<Body>, f: nat, depth: nat, pc: nat, d: Data<W>, k: nat)
    requires f < |bodies| && pc < |bodies[f]| && IsData(bodies[f][pc].op)
    requires Permitted(g, f, depth, bodies[f], pc, d.stack) && DataStep(host, bodies[f][pc], d).Some?
    ensures Run(host, g, bodies, f, depth, pc, d, k + 1) ==
            Run(host, g, bodies, f, depth, pc + 1, DataStep(host, bodies[f][pc], d).value, k)
  {
  }

  /** A run passes through straight-line code as `Straight` says, whatever the guards. */
  lemma {:induction false} RunThrough<W>(
    host: Host<W>, g: Guards, bodies: seq<Body>, f: nat, depth: nat, code: Body, pos: nat, d: Data<W>, k: nat)
    requires f < |bodies| && At(bodies[f], pos, code) && Straight(host, code, d).Some?
    ensures Run(host, g, bodies, f, depth, pos, d, |code| + k) ==
            Run(host, g, bodies, f, depth, pos + |code|, Straight(host, code, d).value, k)
  {
    hide Run, DataStep;
    if code != [] {
      assert bodies[f][pos..pos + |code|][0] == code[0];
      assert bodies[f][pos + 1..pos + |code|] == bodies[f][pos..pos + |code|][1..];
      StepOver(host, g, bodies, f, depth, pos, d, |code| - 1 + k);
      RunThrough(host, g, bodies, f, depth, code[1..], pos + 1, DataStep(host, code[0], d).value, k);
    }
  }

  // ----- a spliced callee -----

  /** What a returning run of a leaf does next. */
  lemma {:induction false} LeafStep<W>(host: Host<W>, g: Guards, bodies: seq<Body>, callee: nat, depth: nat, j: nat, d: Data<W>, fuel: nat)
    requires callee < |bodies| && callee in g.spliced && depth > g.top && IsLeaf(bodies[callee])
    requires Run(host, g, bodies, callee, depth, j, d, fuel).Returned?
    ensures fuel > 0 && j < |bodies[callee]|
    ensures var i := bodies[callee][j];
            if IsReturn(i.op) then
              && j == |bodies[callee]| - 1
              && (IsValueReturn(i.op) ==> d.stack != [])
              && Run(host, g, bodies, callee, depth, j, d, fuel) ==
                 (if i.op == RETURN_VOID then Returned(0, d.stack, d.world)
                  else Returned(Top(d.stack), Pop(d.stack), d.world))
            else
              && IsPlain(i, d.stack) && DataStep(host, i, d).Some?
              && Run(host, g, bodies, callee, depth, j, d, fuel) ==
                 Run(host, g, bodies, callee, depth, j + 1, DataStep(host, i, d).value, fuel - 1)
  {
    assert j < |bodies[callee]| ==> bodies[callee][j] in bodies[callee];
  }

  /** What a return becomes leaves the value on the stack, or drops it. */
  lemma {:induction false} SplicedReturn<W>(host: Host<W>, i: Instruction, base: u64, keepsValue: bool, d: Data<W>, e: Data<W>)
    requires IsReturn(i.op) && SameData(d, e, base) && (IsValueReturn(i.op) ==> d.stack != [])
    ensures SpliceOne(i, base, keepsValue).Ok?
    ensures var value := if i.op == RETURN_VOID then 0 else Top(d.stack);
            var stack := if i.op == RETURN_VOID then d.stack else Pop(d.stack);
            Straight(host, SpliceOne(i, base, keepsValue).value, e) == Some(e.(stack := if keepsValue then stack + [value] else stack))
  {
    if IsValueReturn(i.op) {
      assert Pop(d.stack) + [Top(d.stack)] == d.stack;
    }
  }

  /** What another plain instruction becomes is one plain instruction that does the same. */
  lemma {:induction false} SplicedPlain<W>(host: Host<W>, i: Instruction, base: u64, keepsValue: bool, d: Data<W>, e: Data<W>)
    requires IsPlain(i, d.stack) && SameData(d, e, base) && |e.locals| < TWO64 && DataStep(host, i, d).Some?
    requires SpliceOne(i, base, keepsValue).Ok?
    ensures |SpliceOne(i, base, keepsValue).value| == 1 && IsPlain(SpliceOne(i, base, keepsValue).value[0], e.stack)
    ensures DataStep(host, SpliceOne(i, base, keepsValue).value[0], e).Some?
    ensures var d', e' := DataStep(host, i, d).value, DataStep(host, SpliceOne(i, base, keepsValue).value[0], e).value;
            && SameData(d', e', base) && |d'.locals| == |d.locals|
            && SameOutside(e.locals, e'.locals, base, |d.locals|)
  {
    SplicedStep(host, i, base, d, e);
  }

  /** Running the callee in a frame of its own and running its spliced code inside the
      caller lead to the same stack and world, and the caller's other slots are left alone. */
  lemma {:induction false} SplicedCode<W>(
    host: Host<W>, g: Guards, bodies: seq<Body>, callee: nat, depth: nat, keepsValue: bool, base: u64,
    j: nat, d: Data<W>, fuel: nat, code: Body, e: Data<W>)
    requires callee < |bodies| && j <= |bodies[callee]|
    requires callee in g.spliced && depth > g.top && IsLeaf(bodies[callee])
    requires Run(host, g, bodies, callee, depth, j, d, fuel).Returned?
    requires SpliceAll(bodies[callee][j..], base, keepsValue) == Ok(code)
    requires SameData(d, e, base) && |e.locals| < TWO64
    ensures Straight(host, code, e).Some?
    ensures var r := Run(host, g, bodies, callee, depth, j, d, fuel);
            var e' := Straight(host, code, e).value;
            && e'.stack == (if keepsValue then r.stack + [r.value] else r.stack)
            && e'.world == r.world
            && SameOutside(e.locals, e'.locals, base, |d.locals|)
    decreases fuel
  {
    hide Run, Permitted, IsLeaf, DataStep, SpliceOne, IsPlain;
    var body := bodies[callee];
    LeafStep(host, g, bodies, callee, depth, j, d, fuel);
    var i := body[j];
    assert body[j..][0] == i && body[j..][1..] == body[j + 1..];
    var here := SpliceOne(i, base, keepsValue).value;
    var rest := SpliceAll(body[j + 1..], base, keepsValue).value;
    if IsReturn(i.op) {
      assert body[j + 1..] == [] && code == here;
      SplicedReturn(host, i, base, keepsValue, d, e);
    } else {
      SplicedPlain(host, i, base, keepsValue, d, e);
      assert code[0] == here[0] && code[1..] == rest;
      SplicedCode(host, g, bodies, callee, depth, keepsValue, base, j + 1, DataStep(host, i, d).value, fuel - 1,
                  rest, DataStep(host, here[0], e).value);
    }
  }

  // ----- one rewritten function -----

  /** `after` is `s.bodies` with function `f` rewritten, under guards that cover it. */
  ghost predicate Rewrites(g: Guards, s: State, f: nat, after: seq<Body>) {
    && Sized(s) && LeavesKnown(s) && f < |s.bodies|
    && Rewrite(s, f, s.bodies[f], s.counts[f]).Ok?
    && after == s.bodies[f := Rewrite(s, f, s.bodies[f], s.counts[f]).value.body]
    && NoTopSlot(after[f])
    && f in g.rewritten && AvoidsCalls(s.bodies[f], f, Leaves(s) - g.spliced)
  }

  /** Position `pos` of the rewritten function stands for `pc` of the original: what
      remains to run is the rewriting of what remained, with slots from `next` to `size`
      still to be given to callees. */
  ghost predicate CodeRelated(s: State, f: nat, after: seq<Body>, pc: nat, pos: nat, next: u64, size: nat)
    requires WellFormed(s) && f < |s.bodies| && f < |after|
  {
    && pc <= |s.bodies[f]| && pos <= |after[f]| && LocalCount(s.bodies[f][pc..]) <= next <= size
    && Rewrite(s, f, s.bodies[f][pc..], next).Ok?
    && after[f][pos..] == Rewrite(s, f, s.bodies[f][pc..], next).value.body
    && size == Rewrite(s, f, s.bodies[f][pc..], next).value.next
  }

  /** The original frame, of `own` slots, is intact in the enlarged one, and every slot not
      yet given to a callee is still zero. */
  ghost predicate FrameRelated<W>(d: Data<W>, e: Data<W>, own: nat, next: nat, size: nat) {
    && |d.locals| == own <= next <= size == |e.locals|
    && SameData(d, e, 0) && forall k :: next <= k < size ==> e.locals[k] == 0
  }

  /** A call of the rewritten function starts related. */
  lemma {:induction false} RelatedStart<W>(g: Guards, s: State, f: nat, after: seq<Body>, stack: seq<u64>, world: W)
    requires Rewrites(g, s, f, after)
    ensures CodeRelated(s, f, after, 0, 0, s.counts[f], LocalCount(after[f]))
    ensures FrameRelated(Data(stack, Zeros(LocalCount(s.bodies[f])), world), Data(stack, Zeros(LocalCount(after[f])), world),
                         s.counts[f], s.counts[f], LocalCount(after[f]))
  {
    var small, large := Zeros(LocalCount(s.bodies[f])), Zeros(LocalCount(after[f]));
    assert s.bodies[f][0..] == s.bodies[f] && after[f][0..] == after[f];
    RewriteCount(s, f, s.bodies[f], s.counts[f]);
    assert large[0..|small|] == small;
  }

  /** An instruction that is not inlined stands unchanged in the rewritten function. */
  lemma {:induction false} CodeOwn(s: State, f: nat, after: seq<Body>, pc: nat, pos: nat, next: u64, size: nat)
    requires WellFormed(s) && f < |s.bodies| && f < |after| && CodeRelated(s, f, after, pc, pos, next, size)
    requires pc < |s.bodies[f]| && !IsInlineable(s, f, s.bodies[f][pc])
    ensures pos < |after[f]| && after[f][pos] == s.bodies[f][pc]
    ensures pc == |s.bodies[f]| - 1 ==> pos == |after[f]| - 1
    ensures CodeRelated(s, f, after, pc + 1, pos + 1, next, size)
  {
    var rest := s.bodies[f][pc..];
    assert rest[0] == s.bodies[f][pc] && rest[1..] == s.bodies[f][pc + 1..];
    var tail := Rewrite(s, f, rest[1..], next).value;
    assert after[f][pos..] == [rest[0]] + tail.body;
    assert after[f][pos] == after[f][pos..][0] && after[f][pos + 1..] == after[f][pos..][1..] == tail.body;
    if pc == |s.bodies[f]| - 1 {
      assert rest[1..] == [] && tail.body == [];
      assert |after[f][pos..]| == 1;
    }
  }

  lemma {:induction false} NoTopSlotParts(body: Body, pos: nat, a: Body, b: Body)
    requires NoTopSlot(body) && pos <= |body| && body[pos..] == a + b
    ensures NoTopSlot(a) && NoTopSlot(b)
  {
    assert forall x :: x in a || x in b ==> x in a + b;
    assert forall x :: x in body[pos..] ==> x in body;
  }

  /** At an inlined call the callee's code stands in the rewritten function, with room
      for its frame. */
  lemma {:induction false} CodeCallee(s: State, f: nat, after: seq<Body>, pc: nat, pos: nat, next: u64, size: nat)
    returns (code: Body)
    requires Sized(s) && f < |s.bodies| && f < |after| && NoTopSlot(after[f])
    requires CodeRelated(s, f, after, pc, pos, next, size)
    requires pc < |s.bodies[f]| && IsInlineable(s, f, s.bodies[f][pc])
    ensures var i := s.bodies[f][pc];
            && SpliceAll(s.bodies[i.imm], next, i.op == CALL) == Ok(code)
            && At(after[f], pos, code)
            && next + s.counts[i.imm] < TWO64
            && CodeRelated(s, f, after, pc + 1, pos + |code|, next + s.counts[i.imm], size)
  {
    hide NoTopSlot, SpliceAll;
    var rest := s.bodies[f][pc..];
    var i := rest[0];
    var next' := Add64(next, s.counts[i.imm]);
    assert i == s.bodies[f][pc] && rest[1..] == s.bodies[f][pc + 1..];
    code := SpliceAll(s.bodies[i.imm], next, i.op == CALL).value;
    var tail := Rewrite(s, f, rest[1..], next').value;
    assert after[f][pos..] == code + tail.body;
    assert after[f][pos..pos + |code|] == (code + tail.body)[..|code|];
    assert after[f][pos + |code|..] == (code + tail.body)[|code|..];
    NoTopSlotParts(after[f], pos, code, tail.body);
    SplicedCount(s.bodies[i.imm], next, i.op == CALL);
    assert next' == next + s.counts[i.imm];
    RewriteCount(s, f, rest[1..], next');
  }

  // ----- whole runs -----

  /** Function `f`, continued from `pc`, returns with outcome `r`. */
  ghost predicate Ends<W>(host: Host<W>, g: Guards, bodies: seq<Body>, f: nat, depth: nat, pc: nat, d: Data<W>, r: Outcome<W>)
    requires f < |bodies|
  {
    r.Returned? && exists fuel: nat :: Run(host, g, bodies, f, depth, pc, d, fuel) == r
  }

  /** A call of `f` returns with outcome `r`. */
  ghost predicate InvokeEnds<W>(host: Host<W>, g: Guards, bodies: seq<Body>, f: nat, depth: nat, stack: seq<u64>, world: W, r: Outcome<W>)
    requires f < |bodies|
  {
    Ends(host, g, bodies, f, depth, 0, Data(stack, Zeros(LocalCount(bodies[f])), world), r)
  }

  function AfterCall<W>(i: Instruction, r: Outcome<W>, d: Data<W>): Data<W>
    requires r.Returned?
  {
    Data(if i.op == CALL then r.stack + [r.value] else r.stack, d.locals, r.world)
  }

  lemma {:induction false} EndsData<W>(host: Host<W>, g: Guards, bodies: seq<Body>, f: nat, depth: nat, pc: nat, d: Data<W>, r: Outcome<W>)
    requires f < |bodies| && pc < |bodies[f]| && IsData(bodies[f][pc].op)
    requires Permitted(g, f, depth, bodies[f], pc, d.stack) && DataStep(host, bodies[f][pc], d).Some?
    requires Ends(host, g, bodies, f, depth, pc + 1, DataStep(host, bodies[f][pc], d).value, r)
    ensures Ends(host, g, bodies, f, depth, pc, d, r)
  {
    var k: nat :| Run(host, g, bodies, f, depth, pc + 1, DataStep(host, bodies[f][pc], d).value, k) == r;
    StepOver(host, g, bodies, f, depth, pc, d, k);
  }

  lemma {:induction false} EndsThrough<W>(host: Host<W>, g: Guards, bodies: seq<Body>, f: nat, depth: nat, code: Body, pos: nat, d: Data<W>, d': Data<W>, r: Outcome<W>)
    requires f < |bodies| && At(bodies[f], pos, code) && Straight(host, code, d) == Some(d')
    requires Ends(host, g, bodies, f, depth, pos + |code|, d', r)
    ensures Ends(host, g, bodies, f, depth, pos, d, r)
  {
    var k: nat :| Run(host, g, bodies, f, depth, pos + |code|, d', k) == r;
    RunThrough(host, g, bodies, f, depth, code, pos, d, k);
  }

  lemma {:induction false} CallStep<W>(host: Host<W>, g: Guards, bodies: seq<Body>, f: nat, depth: nat, pc: nat, d: Data<W>,
                    called: Outcome<W>, k: nat)
    requires f < |bodies| && pc < |bodies[f]| && IsCall(bodies[f][pc].op)
    requires bodies[f][pc].imm < |bodies| && depth < host.maxCallDepth
    requires Permitted(g, f, depth, bodies[f], pc, d.stack) && called.Returned?
    requires called == Invoke(host, g, bodies, bodies[f][pc].imm, depth + 1, d.stack, d.world, k)
    ensures Run(host, g, bodies, f, depth, pc, d, k + 1) ==
            Run(host, g, bodies, f, depth, pc + 1, AfterCall(bodies[f][pc], called, d), k)
  {
  }

  /** A call that returns, followed by a run that returns. */
  lemma {:induction false} EndsCall<W>(host: Host<W>, g: Guards, bodies: seq<Body>, f: nat, depth: nat, pc: nat, d: Data<W>,
                    i: Instruction, called: Outcome<W>, r: Outcome<W>)
    requires f < |bodies| && pc < |bodies[f]| && bodies[f][pc] == i && IsCall(i.op)
    requires i.imm < |bodies| && depth < host.maxCallDepth
    requires Permitted(g, f, depth, bodies[f], pc, d.stack)
    requires InvokeEnds(host, g, bodies, i.imm, depth + 1, d.stack, d.world, called)
    requires Ends(host, g, bodies, f, depth, pc + 1, AfterCall(i, called, d), r)
    ensures Ends(host, g, bodies, f, depth, pc, d, r)
  {
    hide Run, Permitted, LocalCount;
    var start := Data(d.stack, Zeros(LocalCount(bodies[i.imm])), d.world);
    var d' := AfterCall(i, called, d);
    var a: nat :| Run(host, g, bodies, i.imm, depth + 1, 0, start, a) == called;
    var b: nat :| Run(host, g, bodies, f, depth, pc + 1, d', b) == r;
    MoreFuel(host, g, bodies, i.imm, depth + 1, 0, start, a, a + b);
    MoreFuel(host, g, bodies, f, depth, pc + 1, d', b, a + b);
    CallStep(host, g, bodies, f, depth, pc, d, called, a + b);
  }

  /** What a returning run does when it stands at a call. */
  lemma {:induction false} CallParts<W>(host: Host<W>, g: Guards, bodies: seq<Body>, f: nat, depth: nat, pc: nat, d: Data<W>, fuel: nat, r: Outcome<W>)
    returns (called: Outcome<W>)
    requires f < |bodies| && pc < |bodies[f]| && IsCall(bodies[f][pc].op)
    requires r.Returned? && Run(host, g, bodies, f, depth, pc, d, fuel) == r
    ensures fuel > 0 && bodies[f][pc].imm < |bodies| && depth < host.maxCallDepth
    ensures Permitted(g, f, depth, bodies[f], pc, d.stack)
    ensures called.Returned?
    ensures called == Run(host, g, bodies, bodies[f][pc].imm, depth + 1, 0,
                          Data(d.stack, Zeros(LocalCount(bodies[bodies[f][pc].imm])), d.world), fuel - 1)
    ensures r == Run(host, g, bodies, f, depth, pc + 1, AfterCall(bodies[f][pc], called, d), fuel - 1)
  {
    called := Invoke(host, g, bodies, bodies[f][pc].imm, depth + 1, d.stack, d.world, fuel - 1);
  }

  /** Where function `h` stands before and after the rewriting of `f`. */
  ghost predicate Corresponds<W>(s: State, f: nat, after: seq<Body>, h: nat, pc: nat, pos: nat, next: u64, size: nat, d: Data<W>, e: Data<W>)
    requires WellFormed(s) && f < |s.bodies| && f < |after|
  {
    if h == f then CodeRelated(s, f, after, pc, pos, next, size) && FrameRelated(d, e, s.counts[f], next, size)
    else pos == pc && e == d
  }

  /** Every run that returns before function `f` is rewritten returns the same after. */
  lemma {:induction false} Simulate<W>(
    host: Host<W>, g: Guards, s: State, f: nat, after: seq<Body>, h: nat, depth: nat,
    pc: nat, d: Data<W>, fuel: nat, r: Outcome<W>, pos: nat, next: u64, size: nat, e: Data<W>)
    requires Rewrites(g, s, f, after) && h < |s.bodies| && depth >= g.top
    requires r.Returned? && Run(host, g, s.bodies, h, depth, pc, d, fuel) == r
    requires Corresponds(s, f, after, h, pc, pos, next, size, d, e)
    ensures Ends(host, g, after, h, depth, pos, e, r)
    decreases fuel, 1
  {
    var i := s.bodies[h][pc];
    if h == f && IsInlineable(s, f, i) {
      SimulateInlined(host, g, s, f, after, depth, pc, d, fuel, r, pos, next, size, e);
    } else if IsCall(i.op) {
      SimulateCall(host, g, s, f, after, h, depth, pc, d, fuel, r, pos, next, size, e);
    } else if h == f {
      SimulateOwn(host, g, s, f, after, depth, pc, d, fuel, r, pos, next, size, e);
    } else {
      match Execute(host, s.bodies[h], pc, d)
      case Leave(_, _, _) =>
        assert Run(host, g, after, h, depth, pos, e, 1) == r;
      case Next(pc', d') =>
        Simulate(host, g, s, f, after, h, depth, pc', d', fuel - 1, r, pc', next, size, d');
        var k: nat :| Run(host, g, after, h, depth, pc', d', k) == r;
        assert Run(host, g, after, h, depth, pos, e, k + 1) == r;
    }
  }

  /** The case of an instruction of `f` itself that is no call. */
  lemma {:induction false} SimulateOwn<W>(
    host: Host<W>, g: Guards, s: State, f: nat, after: seq<Body>, depth: nat,
    pc: nat, d: Data<W>, fuel: nat, r: Outcome<W>, pos: nat, next: u64, size: nat, e: Data<W>)
    requires Rewrites(g, s, f, after) && depth >= g.top
    requires r.Returned? && Run(host, g, s.bodies, f, depth, pc, d, fuel) == r
    requires Corresponds(s, f, after, f, pc, pos, next, size, d, e)
    requires pc < |s.bodies[f]| && !IsCall(s.bodies[f][pc].op)
    ensures Ends(host, g, after, f, depth, pos, e, r)
    decreases fuel, 0
  {
    var i := s.bodies[f][pc];
    CodeOwn(s, f, after, pc, pos, next, size);
    if IsReturn(i.op) {
      assert Run(host, g, after, f, depth, pos, e, 1) == r;
    } else {
      OwnStep(host, i, d, e);
      var d', e' := DataStep(host, i, d).value, DataStep(host, i, e).value;
      Simulate(host, g, s, f, after, f, depth, pc + 1, d', fuel - 1, r, pos + 1, next, size, e');
      EndsData(host, g, after, f, depth, pos, e, r);
    }
  }

  /** The callee of a call that stays. */
  lemma {:induction false} SimulateCallee<W>(
    host: Host<W>, g: Guards, s: State, f: nat, after: seq<Body>, callee: nat, depth: nat,
    stack: seq<u64>, world: W, fuel: nat, r: Outcome<W>)
    requires Rewrites(g, s, f, after) && callee < |s.bodies| && depth >= g.top
    requires r.Returned?
    requires Run(host, g, s.bodies, callee, depth, 0, Data(stack, Zeros(LocalCount(s.bodies[callee])), world), fuel) == r
    ensures InvokeEnds(host, g, after, callee, depth, stack, world, r)
    decreases fuel, 2
  {
    if callee == f {
      RelatedStart(g, s, f, after, stack, world);
    }
    Simulate(host, g, s, f, after, callee, depth, 0, Data(stack, Zeros(LocalCount(s.bodies[callee])), world), fuel, r,
             0, s.counts[f], LocalCount(after[f]), Data(stack, Zeros(LocalCount(after[callee])), world));
  }

  /** A call that stays is the same instruction in both, and correspondence goes on behind it. */
  lemma {:induction false} KeptCall<W>(
    g: Guards, s: State, f: nat, after: seq<Body>, h: nat, depth: nat, pc: nat, d: Data<W>, called: Outcome<W>,
    pos: nat, next: u64, size: nat, e: Data<W>)
    requires Rewrites(g, s, f, after) && h < |s.bodies| && called.Returned?
    requires Corresponds(s, f, after, h, pc, pos, next, size, d, e)
    requires pc < |s.bodies[h]| && IsCall(s.bodies[h][pc].op)
    requires h == f ==> !IsInlineable(s, f, s.bodies[h][pc])
    requires Permitted(g, h, depth, s.bodies[h], pc, d.stack)
    ensures pos < |after[h]| && after[h][pos] == s.bodies[h][pc] && e.stack == d.stack && e.world == d.world
    ensures Permitted(g, h, depth, after[h], pos, e.stack)
    ensures Corresponds(s, f, after, h, pc + 1, pos + 1, next, size,
                        AfterCall(s.bodies[h][pc], called, d), AfterCall(s.bodies[h][pc], called, e))
  {
    if h == f {
      CodeOwn(s, f, after, pc, pos, next, size);
    }
  }

  /** The case of a call that stays, made by any function. */
  lemma {:induction false} SimulateCall<W>(
    host: Host<W>, g: Guards, s: State, f: nat, after: seq<Body>, h: nat, depth: nat,
    pc: nat, d: Data<W>, fuel: nat, r: Outcome<W>, pos: nat, next: u64, size: nat, e: Data<W>)
    requires |after| == |s.bodies| && WellFormed(s) && f < |s.bodies|
    requires Rewrites(g, s, f, after) && h < |s.bodies| && depth >= g.top
    requires r.Returned? && Run(host, g, s.bodies, h, depth, pc, d, fuel) == r
    requires Corresponds(s, f, after, h, pc, pos, next, size, d, e)
    requires pc < |s.bodies[h]| && IsCall(s.bodies[h][pc].op)
    requires h == f ==> !IsInlineable(s, f, s.bodies[h][pc])
    ensures Ends(host, g, after, h, depth, pos, e, r)
    decreases fuel, 0
  {
    hide Run, Corresponds, Rewrites, Permitted, Ends, InvokeEnds;
    var i := s.bodies[h][pc];
    var called := CallParts(host, g, s.bodies, h, depth, pc, d, fuel, r);
    SimulateCallee(host, g, s, f, after, i.imm, depth + 1, d.stack, d.world, fuel - 1, called);
    KeptCall(g, s, f, after, h, depth, pc, d, called, pos, next, size, e);
    Simulate(host, g, s, f, after, h, depth, pc + 1, AfterCall(i, called, d), fuel - 1, r,
             pos + 1, next, size, AfterCall(i, called, e));
    EndsCall(host, g, after, h, depth, pos, e, i, called, r);
  }

  lemma {:induction false} CodeRoom(s: State, f: nat, after: seq<Body>, pc: nat, pos: nat, next: u64, size: nat)
    requires WellFormed(s) && f < |s.bodies| && f < |after| && CodeRelated(s, f, after, pc, pos, next, size)
    ensures next <= size < TWO64
  {
  }

  lemma {:induction false} InlineableIsLeaf(s: State, f: nat, i: Instruction)
    requires LeavesKnown(s) && IsInlineable(s, f, i) && f < |s.bodies| && i in s.bodies[f]
    ensures IsLeaf(s.bodies[i.imm])
    ensures forall spliced: set<nat> :: AvoidsCalls(s.bodies[f], f, Leaves(s) - spliced) ==> i.imm in spliced
  {
    assert i.imm in Leaves(s);
  }

  lemma {:induction false} ZeroSlots(large: seq<u64>, next: nat, count: nat)
    requires next + count <= |large| && forall k :: next <= k < |large| ==> large[k] == 0
    ensures Embeds(Zeros(count), large, next)
  {
    assert large[next..next + count] == Zeros(count);
  }

  /** A callee's writes leave the caller's frame related. */
  lemma {:induction false} FrameBehind<W>(d: Data<W>, e: Data<W>, e': Data<W>, own: nat, next: nat, count: nat, size: nat)
    requires FrameRelated(d, e, own, next, size) && next + count <= size
    requires SameOutside(e.locals, e'.locals, next, count)
    ensures Embeds(d.locals, e'.locals, 0) && |e'.locals| == size
    ensures forall k :: next + count <= k < size ==> e'.locals[k] == 0
  {
    assert e'.locals[0..own] == e.locals[0..own];
  }

  /** Passing through the spliced code leads to corresponding positions behind the call. */
  lemma {:induction false} InlinedCall<W>(
    host: Host<W>, g: Guards, s: State, f: nat, after: seq<Body>, depth: nat, pc: nat, d: Data<W>, fuel: nat,
    called: Outcome<W>, pos: nat, next: u64, size: nat, e: Data<W>)
    returns (code: Body, next': u64, e': Data<W>)
    requires Rewrites(g, s, f, after) && Corresponds(s, f, after, f, pc, pos, next, size, d, e) && depth > g.top
    requires pc < |s.bodies[f]| && IsInlineable(s, f, s.bodies[f][pc])
    requires called.Returned?
    requires called == Run(host, g, s.bodies, s.bodies[f][pc].imm, depth, 0,
                           Data(d.stack, Zeros(LocalCount(s.bodies[s.bodies[f][pc].imm])), d.world), fuel)
    ensures At(after[f], pos, code) && Straight(host, code, e) == Some(e')
    ensures Corresponds(s, f, after, f, pc + 1, pos + |code|, next', size, AfterCall(s.bodies[f][pc], called, d), e')
  {
    hide Run, LocalCount, Rewrite, SpliceAll, Straight, CodeRelated, NoTopSlot, Embeds, SameOutside, At, IsLeaf, Leaves;
    var i := s.bodies[f][pc];
    var callee := s.bodies[i.imm];
    code := CodeCallee(s, f, after, pc, pos, next, size);
    next' := next + s.counts[i.imm];
    CodeRoom(s, f, after, pc + 1, pos + |code|, next', size);
    ZeroSlots(e.locals, next, s.counts[i.imm]);
    var start := Data(d.stack, Zeros(LocalCount(callee)), d.world);
    assert callee[0..] == callee;
    InlineableIsLeaf(s, f, i);
    SplicedCode(host, g, s.bodies, i.imm, depth, i.op == CALL, next, 0, start, fuel, code, e);
    e' := Straight(host, code, e).value;
    FrameBehind(d, e, e', s.counts[f], next, s.counts[i.imm], size);
  }

  /** The case of an inlined call. */
  lemma {:induction false} SimulateInlined<W>(
    host: Host<W>, g: Guards, s: State, f: nat, after: seq<Body>, depth: nat,
    pc: nat, d: Data<W>, fuel: nat, r: Outcome<W>, pos: nat, next: u64, size: nat, e: Data<W>)
    requires |after| == |s.bodies| && WellFormed(s) && f < |s.bodies|
    requires Rewrites(g, s, f, after) && depth >= g.top
    requires r.Returned? && Run(host, g, s.bodies, f, depth, pc, d, fuel) == r
    requires Corresponds(s, f, after, f, pc, pos, next, size, d, e)
    requires pc < |s.bodies[f]| && IsInlineable(s, f, s.bodies[f][pc])
    ensures Ends(host, g, after, f, depth, pos, e, r)
    decreases fuel, 0
  {
    hide Run, Corresponds, Rewrites, Permitted, Ends, At, Straight;
    var called := CallParts(host, g, s.bodies, f, depth, pc, d, fuel, r);
    var code, next', e' := InlinedCall(host, g, s, f, after, depth + 1, pc, d, fuel - 1, called, pos, next, size, e);
    Simulate(host, g, s, f, after, f, depth, pc + 1, AfterCall(s.bodies[f][pc], called, d), fuel - 1, r,
             pos + |code|, next', size, e');
    EndsThrough(host, g, after, f, depth, code, pos, e, e', r);
  }

  // ----- the whole transformation -----

  /** Guards under which every step from `s` to `t` preserves meaning: they name every
      function that loses a call on the way, and every function that ends up a leaf and that
      another function calls. */
  ghost predicate Covers(g: Guards, s: State, t: State) {
    && Later(s, t)
    && (forall f :: 0 <= f < |s.bodies| ==> AvoidsCalls(s.bodies[f], f, Leaves(t) - g.spliced))
    && (forall f :: 0 <= f < |s.bodies| ==> NoTopSlot(t.bodies[f]))
    && (forall f :: 0 <= f < |s.bodies| && CallCount(t.bodies[f]) < CallCount(s.bodies[f]) ==> f in g.rewritten)
  }

  lemma {:induction false} CoversLater(g: Guards, s: State, s': State, t: State)
    requires Covers(g, s, t) && Later(s, s') && Later(s', t)
    ensures Covers(g, s', t)
  {
    hide CallCount, NoTopSlot, Leaves;
    forall f | 0 <= f < |s.bodies|
      ensures AvoidsCalls(s'.bodies[f], f, Leaves(t) - g.spliced)
      ensures CallCount(t.bodies[f]) < CallCount(s'.bodies[f]) ==> f in g.rewritten
    {
      assert BodyLater(s.bodies[f], s'.bodies[f]) && AvoidsCalls(s.bodies[f], f, Leaves(t) - g.spliced);
    }
  }

  lemma {:induction false} VisitPreserves<W>(
    host: Host<W>, g: Guards, s: State, f: nat, t: State, h: nat, depth: nat, stack: seq<u64>, world: W, r: Outcome<W>)
    requires Sized(s) && LeavesKnown(s) && f < |s.bodies| && h < |s.bodies| && VisitFunction(s, f).Ok?
    requires Covers(g, s, t) && Later(VisitFunction(s, f).value.state, t) && depth >= g.top
    requires InvokeEnds(host, g, s.bodies, h, depth, stack, world, r)
    ensures Sized(VisitFunction(s, f).value.state)
    ensures InvokeEnds(host, g, VisitFunction(s, f).value.state.bodies, h, depth, stack, world, r)
  {
    hide Run, Rewrite, LocalCount, NoTopSlot, CallCount, IsLeaf;
    var v := VisitFunction(s, f).value;
    VisitIsLater(s, f);
    if v.changed {
      assert BodyLater(v.state.bodies[f], t.bodies[f]);
      RewriteCount(s, f, s.bodies[f], s.counts[f]);
      var k: nat :| Run(host, g, s.bodies, h, depth, 0, Data(stack, Zeros(LocalCount(s.bodies[h])), world), k) == r;
      SimulateCallee(host, g, s, f, v.state.bodies, h, depth, stack, world, k, r);
    }
  }

  lemma {:induction false} ScanPreserves<W>(
    host: Host<W>, g: Guards, s: State, f: nat, t: State, h: nat, depth: nat, stack: seq<u64>, world: W, r: Outcome<W>)
    requires Sized(s) && LeavesKnown(s) && f <= |s.bodies| && h < |s.bodies|
    requires Covers(g, s, t) && Later(ScanReached(s, f), t) && depth >= g.top
    requires InvokeEnds(host, g, s.bodies, h, depth, stack, world, r)
    ensures Sized(ScanReached(s, f))
    ensures InvokeEnds(host, g, ScanReached(s, f).bodies, h, depth, stack, world, r)
    decreases |s.bodies| - f
  {
    hide InvokeEnds, Covers, Later, VisitFunction, IsLeaf, LocalCount, Leaves;
    if f < |s.bodies| && VisitFunction(s, f).Ok? {
      var s' := VisitFunction(s, f).value.state;
      VisitIsLater(s, f);
      ScanReachedIsLater(s', f + 1);
      LaterTransitive(s', ScanReached(s', f + 1), t);
      CoversLater(g, s, s', t);
      VisitPreserves(host, g, s, f, t, h, depth, stack, world, r);
      ScanPreserves(host, g, s', f + 1, t, h, depth, stack, world, r);
    }
  }

  lemma {:induction false} PassesPreserve<W>(
    host: Host<W>, g: Guards, s: State, passes: nat, h: nat, depth: nat, stack: seq<u64>, world: W, r: Outcome<W>)
    requires Sized(s) && LeavesKnown(s) && h < |s.bodies|
    requires Covers(g, s, Reached(s, passes)) && depth >= g.top
    requires InvokeEnds(host, g, s.bodies, h, depth, stack, world, r)
    ensures InvokeEnds(host, g, Reached(s, passes).bodies, h, depth, stack, world, r)
    decreases passes
  {
    hide InvokeEnds, Covers, Later, Scan, ScanReached, IsLeaf, LocalCount, Leaves;
    if passes > 0 {
      var s' := ScanReached(s, 0);
      var t := Reached(s, passes);
      ScanReachedIsLater(s, 0);
      if Scan(s, 0).Ok? {
        ScanReaches(s, 0);
        if Scan(s, 0).value.changed {
          ReachedIsLater(s', passes - 1);
        } else {
          LaterItself(s');
        }
      } else {
        LaterItself(s');
      }
      ScanPreserves(host, g, s, 0, t, h, depth, stack, world, r);
      if Scan(s, 0).Ok? && Scan(s, 0).value.changed {
        CoversLater(g, s, s', t);
        PassesPreserve(host, g, s', passes - 1, h, depth, stack, world, r);
      }
    }
  }

  lemma {:induction false} LaterItself(s: State)
    requires WellFormed(s)
    ensures Later(s, s)
  {
    hide CallCount, NoTopSlot, IsLeaf;
  }

  /** A function other than `h` calls it. */
  predicate IsCalled(bodies: seq<Body>, h: nat) {
    exists f :: 0 <= f < |bodies| && f != h && !AvoidsCalls(bodies[f], f, {h})
  }

  /** The conditions under which inlining is meant to be transparent, read off the module
      before and after: they concern functions whose code changed, and, where a call enters
      them, functions that were inlined into another. */
  function InliningGuards(before: seq<Body>, after: seq<Body>, top: nat): Guards
    requires |after| == |before|
  {
    Guards((set f | 0 <= f < |before| && after[f] != before[f]),
           (set h | 0 <= h < |before| && IsLeaf(after[h]) && IsCalled(before, h)), top)
  }

  /** Guards that name every leaf called by another function cover its calls. */
  lemma {:induction false} CalledIsCovered(s: State, t: State, spliced: set<nat>, f: nat)
    requires f < |s.bodies| == |t.bodies| && WellFormed(t)
    requires forall h :: h in Leaves(t) && IsCalled(s.bodies, h) ==> h in spliced
    ensures AvoidsCalls(s.bodies[f], f, Leaves(t) - spliced)
  {
    forall i | i in s.bodies[f] && IsCall(i.op) && i.imm != f
      ensures i.imm !in Leaves(t) - spliced
    {
      assert !AvoidsCalls(s.bodies[f], f, {i.imm});
    }
  }

  lemma {:induction false} GuardsCover(bodies: seq<Body>, top: nat)
    requires forall f :: 0 <= f < |bodies| ==> NoTopSlot(InlineReached(bodies).bodies[f])
    ensures Covers(InliningGuards(bodies, InlineReached(bodies).bodies, top),
                   Start(bodies), InlineReached(bodies))
  {
    hide Reached, NoTopSlot, CallCount, IsLeaf, IsCalled, AvoidsCalls, BodyLater;
    ReachedIsLater(Start(bodies), 2 * |bodies| + 1);
    var s, t := Start(bodies), InlineReached(bodies);
    var g := InliningGuards(bodies, t.bodies, top);
    forall f | 0 <= f < |bodies|
      ensures AvoidsCalls(s.bodies[f], f, Leaves(t) - g.spliced)
    {
      CalledIsCovered(s, t, g.spliced, f);
    }
  }

  /** Inlining preserves every run that keeps to guards which cover it. */
  lemma {:induction false} CoveredRunIsPreserved<W>(
    host: Host<W>, g: Guards, bodies: seq<Body>, f: nat, depth: nat, stack: seq<u64>, world: W, fuel: nat)
    returns (fuel': nat)
    requires f < |bodies| && depth >= g.top
    requires Covers(g, Start(bodies), InlineReached(bodies))
    requires Invoke(host, g, bodies, f, depth, stack, world, fuel).Returned?
    ensures Invoke(host, Unguarded, InlineReached(bodies).bodies, f, depth, stack, world, fuel') ==
            Invoke(host, Unguarded, bodies, f, depth, stack, world, fuel)
  {
    hide Run, Reached, Start, Covers;
    var after := InlineReached(bodies).bodies;
    var start := Data(stack, Zeros(LocalCount(bodies[f])), world);
    var r := Run(host, g, bodies, f, depth, 0, start, fuel);
    assert InvokeEnds(host, g, bodies, f, depth, stack, world, r);
    PassesPreserve(host, g, Start(bodies), 2 * |bodies| + 1, f, depth, stack, world, r);
    var end := Data(stack, Zeros(LocalCount(after[f])), world);
    fuel' :| Run(host, g, after, f, depth, 0, end, fuel') == r;
    GuardedRunIsOrdinary(host, g, bodies, f, depth, 0, start, fuel);
    GuardedRunIsOrdinary(host, g, after, f, depth, 0, end, fuel');
  }

  /** Inlining preserves meaning. Take any module that, inlined as far as it goes, has no
      slot numbered 2^64 - 1, any reading of the uninterpreted opcodes, any function and any
      stack and world to start it on. If its run stays within `InliningGuards` and returns,
      then the same function of the inlined module returns the same value and leaves the
      same stack and world. That holds also for what an inlining that fails leaves behind. */
  lemma {:induction false} InliningPreservesMeaning<W>(
    host: Host<W>, bodies: seq<Body>, f: nat, depth: nat, stack: seq<u64>, world: W, fuel: nat)
    returns (fuel': nat)
    requires f < |bodies|
    requires forall h :: 0 <= h < |bodies| ==> NoTopSlot(InlineReached(bodies).bodies[h])
    requires Invoke(host, InliningGuards(bodies, InlineReached(bodies).bodies, depth),
                    bodies, f, depth, stack, world, fuel).Returned?
    ensures Invoke(host, Unguarded, InlineReached(bodies).bodies, f, depth, stack, world, fuel') ==
            Invoke(host, Unguarded, bodies, f, depth, stack, world, fuel)
  {
    hide Run, Reached, Start, Covers, NoTopSlot;
    GuardsCover(bodies, depth);
    fuel' := CoveredRunIsPreserved(host, InliningGuards(bodies, InlineReached(bodies).bodies, depth),
                                   bodies, f, depth, stack, world, fuel);
  }
}
