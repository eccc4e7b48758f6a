/** Which words of a frame are known to fit 32 bits, told by the code of a function without
    jumps. */
module Widths {
  import opened Ir
  import opened Machine
  import opened Kernel

  /** What is known of a word: that a 32-bit integer return, or a 32-bit float return, would
      hand it over as it is. */
  datatype Width = Width(i32: bool, f32: bool)

  const Wide := Width(false, false)
  const Zero := Width(true, true)

  predicate Fits(v: u64, w: Width) {
    (w.i32 ==> ReturnValue(RETURN_I32, v) == v) && (w.f32 ==> ReturnValue(RETURN_F32, v) == v)
  }

  function WidthOf(v: u64): Width { Width(ReturnValue(RETURN_I32, v) == v, ReturnValue(RETURN_F32, v) == v) }

  function Meet(a: Width, b: Width): Width { Width(a.i32 && b.i32, a.f32 && b.f32) }

  lemma {:induction false} NarrowedFits(v: u64)
    ensures Fits(SignExtend32(v), Width(true, false)) && Fits(v % TWO32, Width(false, true)) && Fits(0, Zero)
  {
  }

  // ----- what is known of opcodes the host interprets -----

  /** How many words an opcode takes off the stack, and what it puts on it. */
  datatype Effect = Effect(pops: nat, pushes: seq<Width>)

  type Effects = map<Opcode, Effect>

  predicate HasEffect(e: Effect, before: seq<u64>, after: seq<u64>) {
    && e.pops <= |before| && |after| == |before| - e.pops + |e.pushes|
    && after[..|before| - e.pops] == before[..|before| - e.pops]
    && forall j :: 0 <= j < |e.pushes| ==> Fits(after[|before| - e.pops + j], e.pushes[j])
  }

  /** Whenever the host executes one of these opcodes, it has the effect stated. */
  ghost predicate Describes<W(!new)>(effects: Effects, host: Host<W>) {
    forall op, imm: u64, stack: seq<u64>, w: W :: op in effects && host.pure(op, imm, stack, w).Some? ==>
      HasEffect(effects[op], stack, host.pure(op, imm, stack, w).value.0)
  }

  /** The host decides integer comparisons as the kernel does. */
  ghost predicate ComparesAsKernel<W(!new)>(host: Host<W>) {
    forall op, imm: u64, stack: seq<u64>, w: W :: IsComparison(op) && host.pure(op, imm, stack, w).Some? ==>
      Compare(op, stack) == Continue(host.pure(op, imm, stack, w).value.0)
  }

  const Comparisons: Effects := map op: Opcode | CMP_EQ_I32 <= op <= CMP_GE_U64 :: Effect(2, [Zero])

  /** A comparison takes two words and leaves one that fits every return. */
  lemma {:induction false} ComparisonsAreNarrow<W(!new)>(host: Host<W>)
    requires ComparesAsKernel(host)
    ensures Describes(Comparisons, host)
  {
    hide Relates;
    forall op, imm: u64, stack: seq<u64>, w: W | op in Comparisons && host.pure(op, imm, stack, w).Some?
      ensures HasEffect(Comparisons[op], stack, host.pure(op, imm, stack, w).value.0)
    {
      assert IsComparison(op);
      TruthFits();
    }
  }

  lemma {:induction false} TruthFits()
    ensures Fits(0, Zero) && Fits(1, Zero)
  {
  }

  // ----- what is known of the value a function returns -----

  function ReturnWidth(op: Opcode): Width {
    if op == RETURN_VOID then Zero
    else if op == RETURN_I32 then Width(true, false)
    else if op == RETURN_F32 then Width(false, true)
    else Wide
  }

  /** What every return of the code guarantees. */
  function ResultWidth(body: Body): Width {
    if body == [] then Zero
    else Meet(if IsReturn(body[0].op) then ReturnWidth(body[0].op) else Zero, ResultWidth(body[1..]))
  }

  lemma {:induction false} ResultIsMet(body: Body, pc: nat)
    requires pc < |body| && IsReturn(body[pc].op)
    ensures var r, w := ResultWidth(body), ReturnWidth(body[pc].op); (r.i32 ==> w.i32) && (r.f32 ==> w.f32)
    decreases |body|
  {
    if pc > 0 {
      ResultIsMet(body[1..], pc - 1);
    }
  }

  /** Every value a function returns has the width of its returns. */
  lemma {:induction false} ResultFits<W>(
    host: Host<W>, bodies: seq<Body>, f: nat, depth: nat, pc: nat, d: Data<W>, fuel: nat)
    requires f < |bodies| && Run(host, Unguarded, bodies, f, depth, pc, d, fuel).Returned?
    ensures Fits(Run(host, Unguarded, bodies, f, depth, pc, d, fuel).value, ResultWidth(bodies[f]))
    decreases fuel
  {
    hide Execute, Permitted, LocalCount, Fits, ResultWidth;
    match Execute(host, bodies[f], pc, d)
    case Leave(_, _, _) => LeaveFits(host, bodies[f], pc, d);
    case Next(pc', d') => ResultFits(host, bodies, f, depth, pc', d', fuel - 1);
    case Enter(target, keepsValue) =>
      var r := Invoke(host, Unguarded, bodies, target, depth + 1, d.stack, d.world, fuel - 1);
      var d' := Data(if keepsValue then r.stack + [r.value] else r.stack, d.locals, r.world);
      ResultFits(host, bodies, f, depth, pc + 1, d', fuel - 1);
  }

  lemma {:induction false} LeaveFits<W>(host: Host<W>, body: Body, pc: nat, d: Data<W>)
    requires Execute(host, body, pc, d).Leave?
    ensures Fits(Execute(host, body, pc, d).value, ResultWidth(body))
  {
    hide ResultWidth, DataStep, SignExtend32;
    ResultIsMet(body, pc);
    NarrowedFits(if d.stack == [] then 0 else Top(d.stack));
  }

  // ----- the words of a frame -----

  /** What is known of the topmost words of the stack, and of slots; a slot not mentioned is
      still zero. */
  datatype Facts = Facts(stack: seq<Width>, slots: map<u64, Width>)

  const NoFacts := Facts([], map[])

  function SlotWidth(facts: Facts, k: u64): Width { if k in facts.slots then facts.slots[k] else Zero }

  predicate Hold(facts: Facts, stack: seq<u64>, locals: seq<u64>) {
    && |facts.stack| <= |stack| && |locals| < TWO64
    && (forall j :: 0 <= j < |facts.stack| ==> Fits(stack[|stack| - |facts.stack| + j], facts.stack[j]))
    && (forall k :: 0 <= k < |locals| ==> Fits(locals[k], SlotWidth(facts, k)))
  }

  function PushFact(facts: Facts, w: Width): Facts { facts.(stack := facts.stack + [w]) }

  function DropFacts(facts: Facts, n: nat): Facts {
    facts.(stack := if n <= |facts.stack| then facts.stack[..|facts.stack| - n] else [])
  }

  function TopFact(facts: Facts): Width {
    if facts.stack == [] then Wide else facts.stack[|facts.stack| - 1]
  }

  /** What is known behind an instruction that neither jumps nor returns. */
  function Learn(effects: Effects, bodies: seq<Body>, i: Instruction, facts: Facts): Facts {
    if i.op == PUSH_I32 then PushFact(facts, WidthOf(SignExtend32(i.imm)))
    else if i.op == PUSH_I64 || i.op == PUSH_F32 || i.op == PUSH_F64 then PushFact(facts, WidthOf(i.imm))
    else if i.op == DUP then PushFact(facts, TopFact(facts))
    else if i.op == POP then DropFacts(facts, 1)
    else if i.op == LOAD_LOCAL then PushFact(facts, SlotWidth(facts, i.imm))
    else if i.op == STORE_LOCAL then DropFacts(facts, 1).(slots := facts.slots[i.imm := TopFact(facts)])
    else if i.op == CALL then facts.(stack := if i.imm < |bodies| then [ResultWidth(bodies[i.imm])] else [])
    else if i.op != CALL_VOID && i.op in effects then
      var e := effects[i.op];
      facts.(stack := DropFacts(facts, e.pops).stack + e.pushes)
    else facts.(stack := [])
  }

  /** What is known before instruction `pc` of code that is executed from its beginning. */
  function FactsAt(effects: Effects, bodies: seq<Body>, body: Body, pc: nat): Facts
    requires pc <= |body|
  {
    if pc == 0 then NoFacts else Learn(effects, bodies, body[pc - 1], FactsAt(effects, bodies, body, pc - 1))
  }

  // ----- what is known is true -----

  lemma {:induction false} ZerosHold(stack: seq<u64>, size: nat)
    requires size < TWO64
    ensures Hold(NoFacts, stack, Zeros(size))
  {
    NarrowedFits(0);
  }

  lemma {:induction false} PushHolds(facts: Facts, stack: seq<u64>, locals: seq<u64>, v: u64, w: Width)
    requires Hold(facts, stack, locals) && Fits(v, w)
    ensures Hold(PushFact(facts, w), stack + [v], locals)
  {
    hide Fits;
    var more, words := PushFact(facts, w).stack, stack + [v];
    forall j | 0 <= j < |more|
      ensures Fits(words[|words| - |more| + j], more[j])
    {
    }
  }

  lemma {:induction false} DropHolds(facts: Facts, stack: seq<u64>, locals: seq<u64>, n: nat)
    requires Hold(facts, stack, locals) && n <= |stack|
    ensures Hold(DropFacts(facts, n), stack[..|stack| - n], locals)
  {
    hide Fits;
    var fewer, words := DropFacts(facts, n).stack, stack[..|stack| - n];
    forall j | 0 <= j < |fewer|
      ensures |fewer| <= |words| && Fits(words[|words| - |fewer| + j], fewer[j])
    {
      assert fewer[j] == facts.stack[j] && words[|words| - |fewer| + j] == stack[|stack| - |facts.stack| + j];
    }
  }

  lemma {:induction false} TopHolds(facts: Facts, stack: seq<u64>, locals: seq<u64>)
    requires Hold(facts, stack, locals) && stack != []
    ensures Fits(Top(stack), TopFact(facts))
  {
  }

  lemma {:induction false} StoreHolds(facts: Facts, stack: seq<u64>, locals: seq<u64>, k: u64, v: u64, w: Width)
    requires Hold(facts, stack, locals) && k < |locals| && Fits(v, w)
    ensures Hold(facts.(slots := facts.slots[k := w]), stack, locals[k := v])
  {
    hide Fits;
  }

  lemma {:induction false} EffectHolds(facts: Facts, before: seq<u64>, after: seq<u64>, locals: seq<u64>, e: Effect)
    requires Hold(facts, before, locals) && HasEffect(e, before, after)
    ensures Hold(facts.(stack := DropFacts(facts, e.pops).stack + e.pushes), after, locals)
  {
    hide Fits;
    var kept, rest := DropFacts(facts, e.pops).stack, before[..|before| - e.pops];
    DropHolds(facts, before, locals, e.pops);
    var all := kept + e.pushes;
    forall j | 0 <= j < |all|
      ensures Fits(after[|after| - |all| + j], all[j])
    {
      if j < |kept| {
        assert after[|after| - |all| + j] == after[..|before| - e.pops][|rest| - |kept| + j] == rest[|rest| - |kept| + j];
      }
    }
  }

  lemma {:induction false} ForgetHolds(facts: Facts, stack: seq<u64>, locals: seq<u64>, more: seq<u64>, w: seq<Width>)
    requires Hold(facts, stack, locals) && |w| <= 1 && |w| <= |more| && (w != [] ==> Fits(more[|more| - 1], w[0]))
    ensures Hold(facts.(stack := w), more, locals)
  {
    hide Fits;
  }

  /** A word of known value. */
  lemma {:induction false} WidthIsKnown(v: u64)
    ensures Fits(v, WidthOf(v))
  {
  }

  /** Opcodes that reach a slot other than by its number. */
  predicate IsSly(op: Opcode) {
    op == FILE_READ_BYTE || op == ADDRESS_OF_LOCAL || op == LOAD_INDIRECT || op == STORE_INDIRECT
  }

  /** An instruction keeps true what is known. */
  lemma {:induction false} LearnHolds<W(!new)>(
    host: Host<W>, effects: Effects, bodies: seq<Body>, i: Instruction, facts: Facts, d: Data<W>)
    requires Describes(effects, host) && Hold(facts, d.stack, d.locals) && DataStep(host, i, d).Some?
    requires !IsSly(i.op) && !IsCall(i.op)
    ensures Hold(Learn(effects, bodies, i, facts), DataStep(host, i, d).value.stack, DataStep(host, i, d).value.locals)
  {
    hide Hold, Fits, HasEffect, SignExtend32, WidthOf;
    var e := DataStep(host, i, d).value;
    if i.op == PUSH_I32 {
      WidthIsKnown(SignExtend32(i.imm));
      PushHolds(facts, d.stack, d.locals, SignExtend32(i.imm), WidthOf(SignExtend32(i.imm)));
    } else if i.op == PUSH_I64 || i.op == PUSH_F32 || i.op == PUSH_F64 {
      WidthIsKnown(i.imm);
      PushHolds(facts, d.stack, d.locals, i.imm, WidthOf(i.imm));
    } else if i.op == DUP {
      TopHolds(facts, d.stack, d.locals);
      PushHolds(facts, d.stack, d.locals, Top(d.stack), TopFact(facts));
    } else if i.op == POP {
      DropHolds(facts, d.stack, d.locals, 1);
    } else if IsLocalOp(i.op) {
      LocalHolds(i, facts, d);
    } else {
      HostHolds(host, effects, bodies, i, facts, d);
    }
  }

  lemma {:induction false} LocalHolds<W>(i: Instruction, facts: Facts, d: Data<W>)
    requires IsLocalOp(i.op) && i.op != ADDRESS_OF_LOCAL && Hold(facts, d.stack, d.locals) && LocalStep(i, d).Some?
    ensures var e := LocalStep(i, d).value;
            if i.op == LOAD_LOCAL then Hold(PushFact(facts, SlotWidth(facts, i.imm)), e.stack, e.locals)
            else Hold(DropFacts(facts, 1).(slots := facts.slots[i.imm := TopFact(facts)]), e.stack, e.locals)
  {
    hide Fits;
    if i.op == LOAD_LOCAL {
      PushHolds(facts, d.stack, d.locals, d.locals[i.imm], SlotWidth(facts, i.imm));
    } else {
      TopHolds(facts, d.stack, d.locals);
      DropHolds(facts, d.stack, d.locals, 1);
      StoreHolds(DropFacts(facts, 1), Pop(d.stack), d.locals, i.imm, Top(d.stack), TopFact(facts));
    }
  }

  lemma {:induction false} HostHolds<W(!new)>(
    host: Host<W>, effects: Effects, bodies: seq<Body>, i: Instruction, facts: Facts, d: Data<W>)
    requires Describes(effects, host) && Hold(facts, d.stack, d.locals) && DataStep(host, i, d).Some?
    requires !IsSly(i.op) && !IsCall(i.op) && !IsLocalOp(i.op)
    requires i.op !in {PUSH_I32, PUSH_I64, PUSH_F32, PUSH_F64, DUP, POP}
    ensures Hold(Learn(effects, bodies, i, facts), DataStep(host, i, d).value.stack, DataStep(host, i, d).value.locals)
  {
    hide Hold, Fits, HasEffect;
    var e := DataStep(host, i, d).value;
    if i.op in effects {
      EffectHolds(facts, d.stack, e.stack, d.locals, effects[i.op]);
    } else {
      ForgetHolds(facts, d.stack, d.locals, e.stack, []);
    }
  }
}
