/** Why the conditions of `InliningGuards` are needed: modules on which the inliner changes
    what a function returns. In each, function 0 starts by calling the leaf, function 1. */
module InlinerLimits {
  import opened Ir
  import opened Fallibles
  import opened Machine
  import opened Widths
  import opened Inliner
  import InlinerMeaning
  import opened InlinerSafety

  /** A host with no opcodes of its own and no heap; every file is an endless row of fives. */
  const NoHost: Host<()> := Host((_, _, _, _) => None, (_, w) => (Byte(5), w), (_, _) => None, (_, _, _) => None, 4096)

  function Op(op: Opcode, imm: u64): Instruction { Instruction(op, imm, 0) }

  lemma {:induction false} NoCallsNoChange(s: State, f: nat, body: Body, next: u64)
    requires WellFormed(s) && !HasCall(body)
    ensures Rewrite(s, f, body, next) == Ok(Rewritten(body, next, false))
  {
    if body != [] {
      assert body[0] in body && forall i :: i in body[1..] ==> i in body;
      NoCallsNoChange(s, f, body[1..], next);
      assert body == [body[0]] + body[1..];
    }
  }

  /** Inlining a leaf into a caller whose first instruction, and no other, calls it. */
  lemma {:induction false} InlineFirstCall(op: Opcode, tail: Body, leaf: Body, code: Body)
    requires IsCall(op) && !HasCall(tail) && IsLeaf(leaf)
    requires Splice(leaf, LocalCount(tail), op == CALL) == Ok(code)
    ensures InlineBodies([[Op(op, 1)] + tail, leaf]).Ok?
    ensures InlineBodies([[Op(op, 1)] + tail, leaf]).value.state.bodies == [code + tail, leaf]
  {
    var caller := [Op(op, 1)] + tail;
    var s := Start([caller, leaf]);
    var next := Add64(LocalCount(tail), LocalCount(leaf));
    assert caller[0] in caller && caller[1..] == tail;
    assert LocalCount(caller) == LocalCount(tail);
    NoCallsNoChange(s, 0, tail, next);
    var t := State([code + tail, leaf], s.counts[0 := next], s.leaf[0 := IsLeaf(code + tail)]);
    assert s.bodies[0 := code + tail] == t.bodies;
    assert VisitFunction(s, 0) == Ok(Visit(t, true));
    SplicedCodeIsPlain(leaf, LocalCount(tail), op == CALL);
    Settled(s, t);
  }

  lemma {:induction false} Settled(s: State, t: State)
    requires WellFormed(s) && WellFormed(t) && |s.bodies| == |t.bodies| == 2
    requires VisitFunction(s, 0) == Ok(Visit(t, true)) && !HasCall(t.bodies[0]) && !HasCall(t.bodies[1])
    ensures Passes(s, 5).Ok? && Passes(s, 5).value.state == t
  {
    hide Rewrite, HasCall;
    NoCallsNoChange(t, 0, t.bodies[0], t.counts[0]);
    NoCallsNoChange(t, 1, t.bodies[1], t.counts[1]);
    assert Scan(t, 2) == Ok(Visit(t, false));
    assert Scan(t, 1) == Ok(Visit(t, false));
    assert Scan(s, 0) == Ok(Visit(t, true));
    assert Passes(t, 4) == Ok(Final(t, true));
  }

  lemma {:induction false} SpliceFirst(i: Instruction, rest: Body, base: u64, keepsValue: bool)
    ensures SpliceAll([], base, keepsValue) == Ok([])
    ensures SpliceOne(i, base, keepsValue).Ok? && SpliceAll(rest, base, keepsValue).Ok? ==>
              SpliceAll([i] + rest, base, keepsValue) ==
              Ok(SpliceOne(i, base, keepsValue).value + SpliceAll(rest, base, keepsValue).value)
  {
    assert ([i] + rest)[1..] == rest;
  }

  // ----- single steps of ordinary runs -----

  function Go(m: seq<Body>, f: nat, depth: nat, pc: nat, stack: seq<u64>, locals: seq<u64>, fuel: nat): Outcome<()>
    requires f < |m|
  {
    Run(NoHost, Unguarded, m, f, depth, pc, Data(stack, locals, ()), fuel)
  }

  lemma {:induction false} PushRuns(m: seq<Body>, f: nat, depth: nat, pc: nat, stack: seq<u64>, locals: seq<u64>, fuel: nat)
    requires f < |m| && pc < |m[f]| && fuel > 0 && m[f][pc].op in {PUSH_I32, PUSH_I64}
    ensures Go(m, f, depth, pc, stack, locals, fuel) ==
            Go(m, f, depth, pc + 1, stack + [if m[f][pc].op == PUSH_I32 then SignExtend32(m[f][pc].imm) else m[f][pc].imm], locals, fuel - 1)
  {
    hide SignExtend32;
  }

  lemma {:induction false} AddressRuns(m: seq<Body>, f: nat, depth: nat, pc: nat, stack: seq<u64>, locals: seq<u64>, fuel: nat)
    requires f < |m| && pc < |m[f]| && fuel > 0 && m[f][pc].op == ADDRESS_OF_LOCAL && m[f][pc].imm < |locals|
    requires m[f][pc].imm < 10
    ensures Go(m, f, depth, pc, stack, locals, fuel) ==
            Go(m, f, depth, pc + 1, stack + [16 * m[f][pc].imm], locals, fuel - 1)
  {
  }

  lemma {:induction false} DataRuns(m: seq<Body>, f: nat, depth: nat, pc: nat, d: Data<()>, e: Data<()>, fuel: nat)
    requires f < |m| && pc < |m[f]| && fuel > 0 && !IsJump(m[f][pc].op) && !IsCall(m[f][pc].op) && !IsReturn(m[f][pc].op)
    requires DataStep(NoHost, m[f][pc], d) == Some(e) && d.world == () && e.world == ()
    ensures Go(m, f, depth, pc, d.stack, d.locals, fuel) == Go(m, f, depth, pc + 1, e.stack, e.locals, fuel - 1)
  {
    hide DataStep;
    assert d == Data(d.stack, d.locals, ()) && e == Data(e.stack, e.locals, ());
  }

  lemma {:induction false} JumpRuns(m: seq<Body>, f: nat, depth: nat, pc: nat, stack: seq<u64>, locals: seq<u64>, fuel: nat)
    requires f < |m| && pc < |m[f]| && fuel > 0 && m[f][pc].op == JUMP && m[f][pc].imm <= |m[f]|
    ensures Go(m, f, depth, pc, stack, locals, fuel) == Go(m, f, depth, m[f][pc].imm, stack, locals, fuel - 1)
  {
  }

  lemma {:induction false} ReturnRuns(m: seq<Body>, f: nat, depth: nat, pc: nat, stack: seq<u64>, locals: seq<u64>, fuel: nat)
    requires f < |m| && pc < |m[f]| && fuel > 0 && m[f][pc].op in {RETURN_VOID, RETURN_I32, RETURN_I64}
    ensures Go(m, f, depth, pc, stack, locals, fuel) ==
            if m[f][pc].op == RETURN_VOID then Returned(0, stack, ())
            else if stack == [] then Fault
            else Returned(ReturnValue(m[f][pc].op, Top(stack)), Pop(stack), ())
  {
    hide SignExtend32;
  }

  lemma {:induction false} CallRuns(m: seq<Body>, f: nat, depth: nat, pc: nat, stack: seq<u64>, locals: seq<u64>, fuel: nat, called: Outcome<()>)
    requires f < |m| && pc < |m[f]| && fuel > 0 && IsCall(m[f][pc].op) && m[f][pc].imm < |m| && depth < 4096
    requires called == Go(m, m[f][pc].imm, depth + 1, 0, stack, Zeros(LocalCount(m[m[f][pc].imm])), fuel - 1) && called.Returned?
    ensures Go(m, f, depth, pc, stack, locals, fuel) ==
            Go(m, f, depth, pc + 1, if m[f][pc].op == CALL then called.stack + [called.value] else called.stack, locals, fuel - 1)
  {
    hide LocalCount;
    var i := m[f][pc];
    assert Execute(NoHost, m[f], pc, Data(stack, locals, ())) == Enter(i.imm, i.op == CALL);
    assert Invoke(NoHost, Unguarded, m, i.imm, depth + 1, stack, (), fuel - 1) == called;
    assert called.world == ();
  }

  lemma {:induction false} OneValue(v: u64)
    ensures [] + [v] == [v] && Top([v]) == v && Pop([v]) == []
  {
  }

  /** A body that names no slot has an empty frame. */
  lemma {:induction false} NoSlots(body: Body)
    requires forall i :: i in body ==> !IsLocalOp(i.op)
    ensures LocalCount(body) == 0 && Zeros(LocalCount(body)) == []
  {
    if body != [] {
      NoSlots(body[1..]);
    }
  }

  // ----- a jump in a rewritten caller keeps its old target -----

  const Seven: Body := [Op(JUMP, 3), Op(RETURN_VOID, 0), Op(PUSH_I64, 7), Op(RETURN_I64, 0)]
  const Nothing: Body := [Op(RETURN_VOID, 0)]

  lemma {:induction false} SevenRuns()
    ensures Invoke(NoHost, Unguarded, [[Op(CALL_VOID, 1)] + Seven, Nothing], 0, 1, [], (), 10) == Returned(7, [], ())
    ensures Invoke(NoHost, Unguarded, [Seven, Nothing], 0, 1, [], (), 10) == Fault
  {
    hide Run, LocalCount;
    var m, after := [[Op(CALL_VOID, 1)] + Seven, Nothing], [Seven, Nothing];
    NoSlots(m[0]);
    NoSlots(m[1]);
    NoSlots(after[0]);
    ReturnRuns(m, 1, 2, 0, [], [], 9);
    CallRuns(m, 0, 1, 0, [], [], 10, Returned(0, [], ()));
    JumpRuns(m, 0, 1, 1, [], [], 9);
    PushRuns(m, 0, 1, 3, [], [], 8);
    OneValue(7);
    ReturnRuns(m, 0, 1, 4, [7], [], 7);
    JumpRuns(after, 0, 1, 0, [], [], 10);
    ReturnRuns(after, 0, 1, 3, [], [], 9);
  }

  lemma {:induction false} JumpsGoAstray()
    ensures var m := [[Op(CALL_VOID, 1)] + Seven, Nothing];
            && InlineBodies(m).Ok?
            && Invoke(NoHost, Unguarded, m, 0, 1, [], (), 10) == Returned(7, [], ())
            && Invoke(NoHost, Unguarded, InlineBodies(m).value.state.bodies, 0, 1, [], (), 10) == Fault
  {
    hide Run, Passes;
    SevenRuns();
    SpliceFirst(Op(RETURN_VOID, 0), [], LocalCount(Seven), false);
    assert Nothing == [Op(RETURN_VOID, 0)] + [];
    var none: Body := [];
    assert none + none == none;
    InlineFirstCall(CALL_VOID, Seven, Nothing, none);
    assert [] + Seven == Seven;
  }

  // ----- code behind an early return of the callee comes to life -----

  const Return: Body := [Op(RETURN_I64, 0)]
  const Early: Body := [Op(PUSH_I64, 1), Op(RETURN_I64, 0), Op(RETURN_VOID, 0)]

  /** A caller that returns what its callee pushes and returns. */
  lemma {:induction false} PassedOn(m: seq<Body>, v: u64)
    requires |m| == 2 && |m[0]| >= 2 && m[0][0] == Op(CALL, 1) && m[0][1] == Op(RETURN_I64, 0)
    requires |m[1]| >= 2 && m[1][0] == Op(PUSH_I64, v) && m[1][1] == Op(RETURN_I64, 0)
    requires Zeros(LocalCount(m[1])) == []
    ensures Go(m, 0, 1, 0, [], [], 10) == Returned(v, [], ())
  {
    hide Run, LocalCount, SignExtend32;
    OneValue(v);
    PushRuns(m, 1, 2, 0, [], [], 9);
    ReturnRuns(m, 1, 2, 1, [v], [], 8);
    CallRuns(m, 0, 1, 0, [], [], 10, Returned(v, [], ()));
    ReturnRuns(m, 0, 1, 1, [v], [], 9);
  }

  lemma {:induction false} EarlyRuns()
    ensures Invoke(NoHost, Unguarded, [[Op(CALL, 1)] + Return, Early], 0, 1, [], (), 10) == Returned(1, [], ())
  {
    hide Run, LocalCount;
    var m := [[Op(CALL, 1)] + Return, Early];
    NoSlots(m[0]);
    NoSlots(m[1]);
    PassedOn(m, 1);
  }

  lemma {:induction false} EarlyRunsOn()
    ensures Invoke(NoHost, Unguarded, [[Op(PUSH_I64, 1), Op(PUSH_I32, 0)] + Return, Early], 0, 1, [], (), 10) ==
            Returned(0, [1], ())
  {
    hide Run, LocalCount;
    assert SignExtend32(0) == 0;
    var m := [[Op(PUSH_I64, 1), Op(PUSH_I32, 0)] + Return, Early];
    EarlyReturns(m);
    NoSlots(m[0]);
  }

  lemma {:induction false} EarlyReturns(m: seq<Body>)
    requires |m| == 2 && |m[0]| == 3 && m[0][0] == Op(PUSH_I64, 1) && m[0][1] == Op(PUSH_I32, 0) && m[0][2] == Op(RETURN_I64, 0)
    requires SignExtend32(0) == 0
    ensures Go(m, 0, 1, 0, [], [], 10) == Returned(0, [1], ())
  {
    hide Run, SignExtend32;
    OneValue(1);
    PushRuns(m, 0, 1, 0, [], [], 10);
    PushRuns(m, 0, 1, 1, [1], [], 9);
    assert [1] + [0] == [1, 0] && Pop([1, 0]) == [1];
    ReturnRuns(m, 0, 1, 2, [1, 0], [], 8);
  }

  lemma {:induction false} EarlyReturnsAreLost()
    ensures var m := [[Op(CALL, 1)] + Return, Early];
            && InlineBodies(m).Ok?
            && Invoke(NoHost, Unguarded, m, 0, 1, [], (), 10) == Returned(1, [], ())
            && Invoke(NoHost, Unguarded, InlineBodies(m).value.state.bodies, 0, 1, [], (), 10) == Returned(0, [1], ())
  {
    hide Run, Passes;
    EarlyRuns();
    EarlyRunsOn();
    SpliceFirst(Op(RETURN_VOID, 0), [], LocalCount(Return), true);
    SpliceFirst(Op(RETURN_I64, 0), [Op(RETURN_VOID, 0)], LocalCount(Return), true);
    SpliceFirst(Op(PUSH_I64, 1), [Op(RETURN_I64, 0), Op(RETURN_VOID, 0)], LocalCount(Return), true);
    assert [Op(RETURN_VOID, 0)] + [] == [Op(RETURN_VOID, 0)];
    assert [Op(RETURN_I64, 0)] + [Op(RETURN_VOID, 0)] == [Op(RETURN_I64, 0), Op(RETURN_VOID, 0)];
    assert Early == [Op(PUSH_I64, 1)] + [Op(RETURN_I64, 0), Op(RETURN_VOID, 0)];
    var none: Body := [];
    assert [Op(PUSH_I64, 1)] + (none + ([Op(PUSH_I32, 0)] + none)) == [Op(PUSH_I64, 1), Op(PUSH_I32, 0)];
    InlineFirstCall(CALL, Return, Early, [Op(PUSH_I64, 1), Op(PUSH_I32, 0)]);
  }

  // ----- the narrowing of a 32-bit return disappears -----

  const Wide: Body := [Op(PUSH_I64, TWO32), Op(RETURN_I32, 0)]

  lemma {:induction false} WideRuns()
    ensures Invoke(NoHost, Unguarded, [[Op(CALL, 1)] + Return, Wide], 0, 1, [], (), 10) == Returned(0, [], ())
    ensures Invoke(NoHost, Unguarded, [[Op(PUSH_I64, TWO32)] + Return, Wide], 0, 1, [], (), 10) == Returned(TWO32, [], ())
  {
    hide Run, LocalCount;
    var m, after := [[Op(CALL, 1)] + Return, Wide], [[Op(PUSH_I64, TWO32)] + Return, Wide];
    NoSlots(m[0]);
    NoSlots(m[1]);
    NoSlots(after[0]);
    assert SignExtend32(TWO32) == 0;
    PushRuns(m, 1, 2, 0, [], [], 9);
    OneValue(0);
    OneValue(TWO32);
    ReturnRuns(m, 1, 2, 1, [TWO32], [], 8);
    CallRuns(m, 0, 1, 0, [], [], 10, Returned(0, [], ()));
    ReturnRuns(m, 0, 1, 1, [0], [], 9);
    PushRuns(after, 0, 1, 0, [], [], 10);
    ReturnRuns(after, 0, 1, 1, [TWO32], [], 9);
  }

  lemma {:induction false} NarrowingIsLost()
    ensures var m := [[Op(CALL, 1)] + Return, Wide];
            && InlineBodies(m).Ok?
            && Invoke(NoHost, Unguarded, m, 0, 1, [], (), 10) == Returned(0, [], ())
            && Invoke(NoHost, Unguarded, InlineBodies(m).value.state.bodies, 0, 1, [], (), 10) == Returned(TWO32, [], ())
  {
    hide Run, Passes;
    WideRuns();
    SpliceFirst(Op(RETURN_I32, 0), [], LocalCount(Return), true);
    SpliceFirst(Op(PUSH_I64, TWO32), [Op(RETURN_I32, 0)], LocalCount(Return), true);
    assert [Op(RETURN_I32, 0)] + [] == [Op(RETURN_I32, 0)];
    assert Wide == [Op(PUSH_I64, TWO32)] + [Op(RETURN_I32, 0)];
    var none: Body := [];
    assert [Op(PUSH_I64, TWO32)] + (none + none) == [Op(PUSH_I64, TWO32)];
    InlineFirstCall(CALL, Return, Wide, [Op(PUSH_I64, TWO32)]);
  }

  // ----- the address of a callee's slot becomes that of a caller's -----

  /** Returns the value on the stack; the slot it names is there all the same. */
  const Kept: Body := [Op(RETURN_I64, 0), Op(LOAD_LOCAL, 0)]
  const Where: Body := [Op(ADDRESS_OF_LOCAL, 0), Op(RETURN_I64, 0)]

  lemma {:induction false} FrameSizes()
    ensures LocalCount(Kept) == 1 && LocalCount(Where) == 1
    ensures LocalCount([Op(CALL, 1)] + Kept) == 1 && LocalCount([Op(ADDRESS_OF_LOCAL, 1)] + Kept) == 2
  {
    NoSlots([]);
    NoSlots([Op(RETURN_I64, 0)]);
    assert Kept[1..] == [Op(LOAD_LOCAL, 0)] && Kept[1..][1..] == [];
    assert LocalCount(Kept[1..]) == 1;
    assert Where[1..] == [Op(RETURN_I64, 0)];
    assert ([Op(CALL, 1)] + Kept)[1..] == Kept && ([Op(ADDRESS_OF_LOCAL, 1)] + Kept)[1..] == Kept;
  }

  lemma {:induction false} WhereRuns()
    ensures Invoke(NoHost, Unguarded, [[Op(CALL, 1)] + Kept, Where], 0, 1, [], (), 10) == Returned(0, [], ())
    ensures Invoke(NoHost, Unguarded, [[Op(ADDRESS_OF_LOCAL, 1)] + Kept, Where], 0, 1, [], (), 10) == Returned(16, [], ())
  {
    hide Run, LocalCount;
    FrameSizes();
    var m, after := [[Op(CALL, 1)] + Kept, Where], [[Op(ADDRESS_OF_LOCAL, 1)] + Kept, Where];
    AddressRuns(m, 1, 2, 0, [], Zeros(1), 9);
    OneValue(0);
    OneValue(16);
    ReturnRuns(m, 1, 2, 1, [0], Zeros(1), 8);
    CallRuns(m, 0, 1, 0, [], Zeros(1), 10, Returned(0, [], ()));
    ReturnRuns(m, 0, 1, 1, [0], Zeros(1), 9);
    AddressRuns(after, 0, 1, 0, [], Zeros(2), 10);
    ReturnRuns(after, 0, 1, 1, [16], Zeros(2), 9);
  }

  lemma {:induction false} AddressesAreMoved()
    ensures var m := [[Op(CALL, 1)] + Kept, Where];
            && InlineBodies(m).Ok?
            && Invoke(NoHost, Unguarded, m, 0, 1, [], (), 10) == Returned(0, [], ())
            && Invoke(NoHost, Unguarded, InlineBodies(m).value.state.bodies, 0, 1, [], (), 10) == Returned(16, [], ())
  {
    hide Run, Passes, LocalCount;
    WhereRuns();
    FrameSizes();
    SpliceFirst(Op(RETURN_I64, 0), [], 1, true);
    SpliceFirst(Op(ADDRESS_OF_LOCAL, 0), [Op(RETURN_I64, 0)], 1, true);
    assert [Op(RETURN_I64, 0)] + [] == [Op(RETURN_I64, 0)];
    assert Where == [Op(ADDRESS_OF_LOCAL, 0)] + [Op(RETURN_I64, 0)];
    var none: Body := [];
    assert [Op(ADDRESS_OF_LOCAL, 1)] + (none + none) == [Op(ADDRESS_OF_LOCAL, 1)];
    InlineFirstCall(CALL, Kept, Where, [Op(ADDRESS_OF_LOCAL, 1)]);
  }

  // ----- the slot that FileReadByte names is not renamed -----

  const Reads: Body := [Op(FILE_READ_BYTE, 0), Op(POP, 0), Op(LOAD_LOCAL, 0), Op(RETURN_I64, 0)]
  const ReadsAside: Body := [Op(FILE_READ_BYTE, 0), Op(POP, 0), Op(LOAD_LOCAL, 1)]

  lemma {:induction false} ByteIsStored<W>(host: Host<W>, i: Instruction, d: Data<W>, v: u8, w: W)
    requires i.op == FILE_READ_BYTE && d.stack != [] && i.imm < |d.locals|
    requires host.readByte(Top(d.stack), d.world) == (Byte(v), w)
    ensures DataStep(host, i, d) == Some(Data(Pop(d.stack) + [0], d.locals[i.imm := v], w))
  {
    hide LocalStep, IndirectStep;
  }

  lemma {:induction false} TopIsPopped<W>(host: Host<W>, d: Data<W>)
    requires d.stack != []
    ensures DataStep(host, Op(POP, 0), d) == Some(d.(stack := Pop(d.stack)))
  {
    hide LocalStep, IndirectStep, ReadStep;
  }

  lemma {:induction false} FiveIsRead(handle: u64)
    ensures NoHost.readByte(handle, ()) == (Byte(5), ())
  {
  }

  lemma {:induction false} ReadStarts(d: Data<()>)
    requires |d.stack| == 1 && d.locals != [] && d.world == ()
    ensures DataStep(NoHost, Op(FILE_READ_BYTE, 0), d) == Some(Data([0], d.locals[0 := 5], ()))
    ensures DataStep(NoHost, Op(POP, 0), Data([0], d.locals[0 := 5], ())) == Some(Data([], d.locals[0 := 5], ()))
  {
    hide DataStep, NoHost;
    FiveIsRead(Top(d.stack));
    ByteIsStored(NoHost, Op(FILE_READ_BYTE, 0), d, 5, ());
    TopIsPopped(NoHost, Data([0], d.locals[0 := 5], ()));
    assert Pop(d.stack) + [0] == [0] && Pop([0]) == [];
  }

  /** Reading into slot 0 and loading slot `k` of a frame of zeros. */
  lemma {:induction false} ReadRuns(m: seq<Body>, f: nat, depth: nat, k: u64, size: nat, fuel: nat)
    requires f < |m| && |m[f]| >= 3 && m[f][..3] == [Op(FILE_READ_BYTE, 0), Op(POP, 0), Op(LOAD_LOCAL, k)]
    requires k < size && fuel >= 3
    ensures Go(m, f, depth, 0, [3], Zeros(size), fuel) ==
            Go(m, f, depth, 3, [if k == 0 then 5 else 0], Zeros(size)[0 := 5], fuel - 3)
  {
    hide Run, DataStep;
    var locals := Zeros(size)[0 := 5];
    assert m[f][0] == m[f][..3][0] && m[f][1] == m[f][..3][1] && m[f][2] == m[f][..3][2];
    ReadStarts(Data([3], Zeros(size), ()));
    DataRuns(m, f, depth, 0, Data([3], Zeros(size), ()), Data([0], locals, ()), fuel);
    DataRuns(m, f, depth, 1, Data([0], locals, ()), Data([], locals, ()), fuel - 1);
    LoadRuns(k, locals);
    DataRuns(m, f, depth, 2, Data([], locals, ()), Data([locals[k]], locals, ()), fuel - 2);
  }

  lemma {:induction false} LoadRuns(k: u64, locals: seq<u64>)
    requires k < |locals|
    ensures DataStep(NoHost, Op(LOAD_LOCAL, k), Data([], locals, ())) == Some(Data([locals[k]], locals, ()))
  {
    OneValue(locals[k]);
  }

  lemma {:induction false} ReadFrames()
    ensures LocalCount(Reads) == 1 && LocalCount(ReadsAside + Kept) == 2
  {
    FrameSizes();
    assert Reads[1..] == [Op(POP, 0), Op(LOAD_LOCAL, 0), Op(RETURN_I64, 0)];
    assert Reads[1..][1..] == [Op(LOAD_LOCAL, 0), Op(RETURN_I64, 0)];
    NoSlots([Op(RETURN_I64, 0)]);
    assert Reads[1..][1..][1..] == [Op(RETURN_I64, 0)];
    assert LocalCount(Reads[1..][1..]) == 1 && LocalCount(Reads[1..]) == 1;
    var all := ReadsAside + Kept;
    assert all[1..][1..][1..] == Kept && all[1..][1..][0] == Op(LOAD_LOCAL, 1);
    assert LocalCount(all[1..][1..]) == 2 && LocalCount(all[1..]) == 2;
  }

  lemma {:induction false} ReadsRun()
    ensures Invoke(NoHost, Unguarded, [[Op(CALL, 1)] + Kept, Reads], 0, 1, [3], (), 10) == Returned(5, [], ())
  {
    hide Run, LocalCount;
    FrameSizes();
    ReadFrames();
    var m := [[Op(CALL, 1)] + Kept, Reads];
    OneValue(5);
    ReadRuns(m, 1, 2, 0, 1, 9);
    ReturnRuns(m, 1, 2, 3, [5], Zeros(1)[0 := 5], 6);
    CallRuns(m, 0, 1, 0, [3], Zeros(1), 10, Returned(5, [], ()));
    ReturnRuns(m, 0, 1, 1, [5], Zeros(1), 9);
  }

  lemma {:induction false} ReadsAsideRun()
    ensures Invoke(NoHost, Unguarded, [ReadsAside + Kept, Reads], 0, 1, [3], (), 10) == Returned(0, [], ())
  {
    hide Run, LocalCount;
    ReadFrames();
    var m := [ReadsAside + Kept, Reads];
    OneValue(0);
    ReadRuns(m, 0, 1, 1, 2, 10);
    ReturnRuns(m, 0, 1, 3, [0], Zeros(2)[0 := 5], 7);
  }

  lemma {:induction false} ReadsAreSpliced()
    ensures Splice(Reads, 1, true) == Ok(ReadsAside)
  {
    var a, b, c: Body := [Op(RETURN_I64, 0)], [Op(LOAD_LOCAL, 0)] + [Op(RETURN_I64, 0)], [Op(POP, 0)] + ([Op(LOAD_LOCAL, 0)] + [Op(RETURN_I64, 0)]);
    SpliceFirst(Op(RETURN_I64, 0), [], 1, true);
    assert a == [Op(RETURN_I64, 0)] + [];
    SpliceFirst(Op(LOAD_LOCAL, 0), a, 1, true);
    SpliceFirst(Op(POP, 0), b, 1, true);
    SpliceFirst(Op(FILE_READ_BYTE, 0), c, 1, true);
    assert Reads == [Op(FILE_READ_BYTE, 0)] + c;
    var none: Body := [];
    assert [Op(FILE_READ_BYTE, 0)] + ([Op(POP, 0)] + ([Op(LOAD_LOCAL, 1)] + (none + none))) == ReadsAside;
  }

  lemma {:induction false} ReadsGoAside()
    ensures var m := [[Op(CALL, 1)] + Kept, Reads];
            && InlineBodies(m).Ok?
            && Invoke(NoHost, Unguarded, m, 0, 1, [3], (), 10) == Returned(5, [], ())
            && Invoke(NoHost, Unguarded, InlineBodies(m).value.state.bodies, 0, 1, [3], (), 10) == Returned(0, [], ())
  {
    hide Run, Passes, LocalCount, SpliceAll;
    ReadsRun();
    ReadsAsideRun();
    FrameSizes();
    ReadsAreSpliced();
    InlineFirstCall(CALL, Kept, Reads, ReadsAside);
  }

  // ----- slot 2^64 - 1 has no room in any frame -----

  const LAST: u64 := TWO64 - 1
  const Vast: Body := [Op(RETURN_I64, 0), Op(LOAD_LOCAL, LAST - 2)]
  const Second: Body := [Op(LOAD_LOCAL, 1), Op(RETURN_I64, 0)]

  lemma {:induction false} VastFrames()
    ensures LocalCount(Vast) == LAST - 1 && LocalCount(Second) == 2
    ensures LocalCount([Op(CALL, 1)] + Vast) == LAST - 1 && LocalCount([Op(LOAD_LOCAL, LAST)] + Vast) == LAST - 1
  {
    NoSlots([]);
    NoSlots([Op(RETURN_I64, 0)]);
    assert Vast[1..] == [Op(LOAD_LOCAL, LAST - 2)] && Vast[1..][1..] == [];
    assert LocalCount(Vast[1..]) == LAST - 1;
    assert Second[1..] == [Op(RETURN_I64, 0)];
    assert ([Op(CALL, 1)] + Vast)[1..] == Vast && ([Op(LOAD_LOCAL, LAST)] + Vast)[1..] == Vast;
  }

  lemma {:induction false} VastRuns()
    ensures Invoke(NoHost, Unguarded, [[Op(CALL, 1)] + Vast, Second], 0, 1, [], (), 10) == Returned(0, [], ())
  {
    hide Run, LocalCount, DataStep;
    VastFrames();
    var m := [[Op(CALL, 1)] + Vast, Second];
    OneValue(0);
    LoadRuns(1, Zeros(2));
    DataRuns(m, 1, 2, 0, Data([], Zeros(2), ()), Data([0], Zeros(2), ()), 9);
    ReturnRuns(m, 1, 2, 1, [0], Zeros(2), 8);
    CallRuns(m, 0, 1, 0, [], Zeros(LAST - 1), 10, Returned(0, [], ()));
    ReturnRuns(m, 0, 1, 1, [0], Zeros(LAST - 1), 9);
  }

  lemma {:induction false} VastFaults()
    ensures Invoke(NoHost, Unguarded, [[Op(LOAD_LOCAL, LAST)] + Vast, Second], 0, 1, [], (), 10) == Fault
  {
    hide LocalCount;
    VastFrames();
  }

  /** The last slot a 64-bit number can name is granted to a callee, and then missing. */
  lemma {:induction false} LastSlotIsMissing()
    ensures var m := [[Op(CALL, 1)] + Vast, Second];
            && InlineBodies(m).Ok?
            && Invoke(NoHost, Unguarded, m, 0, 1, [], (), 10) == Returned(0, [], ())
            && Invoke(NoHost, Unguarded, InlineBodies(m).value.state.bodies, 0, 1, [], (), 10) == Fault
  {
    hide Run, Passes, LocalCount;
    VastRuns();
    VastFaults();
    VastFrames();
    SpliceFirst(Op(RETURN_I64, 0), [], LAST - 1, true);
    SpliceFirst(Op(LOAD_LOCAL, 1), [Op(RETURN_I64, 0)], LAST - 1, true);
    assert [Op(RETURN_I64, 0)] + [] == [Op(RETURN_I64, 0)];
    assert Second == [Op(LOAD_LOCAL, 1)] + [Op(RETURN_I64, 0)];
    var none: Body := [];
    assert [Op(LOAD_LOCAL, LAST)] + (none + none) == [Op(LOAD_LOCAL, LAST)];
    InlineFirstCall(CALL, Vast, Second, [Op(LOAD_LOCAL, LAST)]);
  }

  // ----- what is safe -----

  const Narrows: Body := [Op(CALL, 1), Op(RETURN_I32, 0)]
  const Gives: Body := [Op(PUSH_I64, TWO32), Op(RETURN_I64, 0)]

  /** The conditions on inlined functions do not bind a function that nothing calls, though its
      code changes and it ends up a leaf: it may narrow what an inlined function gave it. */
  lemma {:induction false} EntryMayNarrow()
    ensures IsSafe([Narrows, Gives], {}, [0, 0], map[])
  {
    hide LocalCount;
    var m := [Narrows, Gives];
    NoSlots(Narrows);
    NoSlots(Gives);
    assert Narrows[1..] == [Op(RETURN_I32, 0)] && Gives[1..] == [Op(RETURN_I64, 0)];
    NoCallNoNeed(Narrows[1..], 0, {}, [0, 0]);
    NoCallNoNeed(Gives, 1, {}, [0, 0]);
    assert CallNeed(Narrows, 0, {}, [0, 0]) == 0;
    assert !InlinerMeaning.IsCalled(m, 0);
    assert IsStaticLeaf(map[], m, Gives);
  }

  const One: Body := [Op(PUSH_I32, 1), Op(RETURN_I32, 0)]

  /** A function that hands a 32-bit number over through a 32-bit return may be inlined. */
  lemma {:induction false} NarrowReturnsAreSafe()
    ensures IsSafe([Narrows, One], {}, [0, 0], map[])
  {
    hide LocalCount;
    var m := [Narrows, One];
    NoSlots(Narrows);
    NoSlots(One);
    assert Narrows[1..] == [Op(RETURN_I32, 0)] && One[1..] == [Op(RETURN_I32, 0)];
    NoCallNoNeed(Narrows[1..], 0, {}, [0, 0]);
    NoCallNoNeed(One, 1, {}, [0, 0]);
    assert CallNeed(Narrows, 0, {}, [0, 0]) == 0;
    assert !InlinerMeaning.IsCalled(m, 0);
    assert FactsAt(map[], m, One, 0) == NoFacts;
    assert TopFact(FactsAt(map[], m, One, 1)) == WidthOf(1);
    assert IsStaticLeaf(map[], m, One);
  }
}
