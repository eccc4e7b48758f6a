/** Execution of the IR: a stack and a world shared by all frames, and a zeroed
    frame of local slots per call. Opcodes that touch neither a frame nor control
    are interpreted by an arbitrary host, so that what is proved here holds for
    every reading of the arithmetic, heap, print and file opcodes. */
module Machine {
  import opened Ir

  datatype Data<W> = Data(stack: seq<u64>, locals: seq<u64>, world: W)

  /** A byte read, or the status code of a failure or of the end of the file. */
  datatype Read = Byte(value: u8) | NoByte(code: u32)

  datatype Host<!W> = Host(
    // opcodes that see the stack and the world only
    pure: (Opcode, u64, seq<u64>, W) -> Option<(seq<u64>, W)>,
    // what reading a byte from a file handle yields
    readByte: (u64, W) -> (Read, W),
    // reads and writes through a tagged heap address
    load: (W, u64) -> Option<u64>,
    store: (W, u64, u64) -> Option<W>,
    maxCallDepth: nat)

  datatype Outcome<W> =
    | Returned(value: u64, stack: seq<u64>, world: W)
    | Fault
    | OutOfFuel

  datatype Step<W> =
    | Next(pc: nat, data: Data<W>)
    | Leave(value: u64, stack: seq<u64>, world: W)
    | Enter(target: u64, keepsValue: bool)
    | Stuck

  // ----- values -----

  /** Sign extension of the low 32 bits. */
  function SignExtend32(v: u64): u64 {
    var low := v % TWO32;
    if low < TWO31 then low else low + (TWO64 - TWO32)
  }

  /** The value a return hands over: 32-bit returns narrow it. */
  function ReturnValue(op: Opcode, v: u64): u64 {
    if op == RETURN_I32 then SignExtend32(v)
    else if op == RETURN_F32 then v % TWO32
    else v
  }

  function Top(stack: seq<u64>): u64
    requires stack != []
  {
    stack[|stack| - 1]
  }

  function Pop(stack: seq<u64>): seq<u64>
    requires stack != []
  {
    stack[..|stack| - 1]
  }

  predicate IsTagged(address: u64) { address >= TWO63 }

  // ----- one instruction -----

  /** An instruction that neither jumps, calls nor returns. */
  function DataStep<W>(host: Host<W>, i: Instruction, d: Data<W>): Option<Data<W>> {
    if i.op == PUSH_I32 then Some(d.(stack := d.stack + [SignExtend32(i.imm)]))
    else if i.op == PUSH_I64 || i.op == PUSH_F32 || i.op == PUSH_F64 then
      Some(d.(stack := d.stack + [i.imm]))
    else if i.op == DUP then
      if d.stack == [] then None else Some(d.(stack := d.stack + [Top(d.stack)]))
    else if i.op == POP then
      if d.stack == [] then None else Some(d.(stack := Pop(d.stack)))
    else if IsLocalOp(i.op) then LocalStep(i, d)
    else if i.op == LOAD_INDIRECT || i.op == STORE_INDIRECT then IndirectStep(host, i, d)
    else if i.op == FILE_READ_BYTE then ReadStep(host, i, d)
    else
      match host.pure(i.op, i.imm, d.stack, d.world)
      case None => None
      case Some(r) => Some(d.(stack := r.0, world := r.1))
  }

  function LocalStep<W>(i: Instruction, d: Data<W>): Option<Data<W>>
    requires IsLocalOp(i.op)
  {
    if i.imm >= |d.locals| then None
    else if i.op == LOAD_LOCAL then Some(d.(stack := d.stack + [d.locals[i.imm]]))
    else if i.op == ADDRESS_OF_LOCAL then Some(d.(stack := d.stack + [i.imm * 16 % TWO64]))
    else if d.stack == [] then None
    else Some(d.(stack := Pop(d.stack), locals := d.locals[i.imm := Top(d.stack)]))
  }

  /** Pops a handle, pushes a status and, if there was a byte to read, writes it to a slot. */
  function ReadStep<W>(host: Host<W>, i: Instruction, d: Data<W>): Option<Data<W>> {
    if d.stack == [] || i.imm >= |d.locals| then None
    else
      match host.readByte(Top(d.stack), d.world)
      case (Byte(v), w) => Some(Data(Pop(d.stack) + [0], d.locals[i.imm := v], w))
      case (NoByte(code), w) => Some(Data(Pop(d.stack) + [code], d.locals, w))
  }

  /** The address an indirect access uses: the top of the stack, or the value below
      it when a value to store lies on top. */
  function IndirectAddress(op: Opcode, stack: seq<u64>): Option<u64> {
    if op == LOAD_INDIRECT then
      if stack == [] then None else Some(Top(stack))
    else
      if |stack| < 2 then None else Some(stack[|stack| - 2])
  }

  function IndirectStep<W>(host: Host<W>, i: Instruction, d: Data<W>): Option<Data<W>>
    requires i.op == LOAD_INDIRECT || i.op == STORE_INDIRECT
  {
    match IndirectAddress(i.op, d.stack)
    case None => None
    case Some(address) =>
      if address % 16 != 0 then None
      else if i.op == LOAD_INDIRECT then
        if IsTagged(address) then
          match host.load(d.world, address)
          case None => None
          case Some(v) => Some(d.(stack := Pop(d.stack) + [v]))
        else if address / 16 >= |d.locals| then None
        else Some(d.(stack := Pop(d.stack) + [d.locals[address / 16]]))
      else
        var v := Top(d.stack);
        var stack := Pop(Pop(d.stack)) + [v];
        if IsTagged(address) then
          match host.store(d.world, address, v)
          case None => None
          case Some(w) => Some(d.(stack := stack, world := w))
        else if address / 16 >= |d.locals| then None
        else Some(d.(stack := stack, locals := d.locals[address / 16 := v]))
  }

  function Execute<W>(host: Host<W>, body: Body, pc: nat, d: Data<W>): Step<W> {
    if pc >= |body| then Stuck
    else
      var i := body[pc];
      if i.op == JUMP then
        if i.imm > |body| then Stuck else Next(i.imm, d)
      else if i.op == JUMP_IF_ZERO then
        if d.stack == [] || i.imm > |body| then Stuck
        else Next(if Top(d.stack) == 0 then i.imm else pc + 1, d.(stack := Pop(d.stack)))
      else if IsCall(i.op) then Enter(i.imm, i.op == CALL)
      else if i.op == RETURN_VOID then Leave(0, d.stack, d.world)
      else if IsValueReturn(i.op) then
        if d.stack == [] then Stuck
        else Leave(ReturnValue(i.op, Top(d.stack)), Pop(d.stack), d.world)
      else
        match DataStep(host, i, d)
        case None => Stuck
        case Some(d') => Next(pc + 1, d')
  }

  // ----- guards -----

  /** Which functions run under the extra conditions of `Permitted`; frames down to `top`
      are those that no call of the run created. With both sets empty execution is the
      ordinary one. */
  datatype Guards = Guards(rewritten: set<nat>, spliced: set<nat>, top: nat)

  const Unguarded := Guards({}, {}, 0)

  /** What a guarded run may not do: jump inside a function of `rewritten`, or, inside a
      called function of `spliced`, return before the last instruction, return a value that
      the return would narrow, or reach its own frame other than by LoadLocal and StoreLocal. */
  predicate Permitted(g: Guards, f: nat, depth: nat, body: Body, pc: nat, stack: seq<u64>) {
    pc < |body| ==>
      var op := body[pc].op;
      && (f in g.rewritten ==> !IsJump(op))
      && (f in g.spliced && depth > g.top ==>
            && op != FILE_READ_BYTE && op != ADDRESS_OF_LOCAL
            && (IsReturn(op) ==> pc == |body| - 1)
            && (IsValueReturn(op) && stack != [] ==> ReturnValue(op, Top(stack)) == Top(stack))
            && (op == LOAD_INDIRECT || op == STORE_INDIRECT ==>
                  var a := IndirectAddress(op, stack);
                  a.Some? ==> IsTagged(a.value)))
  }

  // ----- runs -----

  /** Runs function `f` from `pc` until it returns. `depth` counts the frames in use;
      `fuel` bounds the length of the run. */
  function Run<W>(host: Host<W>, g: Guards, bodies: seq<Body>, f: nat, depth: nat, pc: nat,
                  d: Data<W>, fuel: nat): Outcome<W>
    requires f < |bodies|
    decreases fuel, 0
  {
    if fuel == 0 then OutOfFuel
    else if !Permitted(g, f, depth, bodies[f], pc, d.stack) then Fault
    else
      match Execute(host, bodies[f], pc, d)
      case Stuck => Fault
      case Leave(v, stack, w) => Returned(v, stack, w)
      case Next(pc', d') => Run(host, g, bodies, f, depth, pc', d', fuel - 1)
      case Enter(target, keepsValue) =>
        if target >= |bodies| || depth >= host.maxCallDepth then Fault
        else
          match Invoke(host, g, bodies, target, depth + 1, d.stack, d.world, fuel - 1)
          case OutOfFuel => OutOfFuel
          case Fault => Fault
          case Returned(v, stack, w) =>
            Run(host, g, bodies, f, depth, pc + 1,
                Data(if keepsValue then stack + [v] else stack, d.locals, w), fuel - 1)
  }

  /** A call: function `f` from its first instruction, in a fresh zeroed frame. */
  function Invoke<W>(host: Host<W>, g: Guards, bodies: seq<Body>, f: nat, depth: nat,
                     stack: seq<u64>, world: W, fuel: nat): Outcome<W>
    requires f < |bodies|
    decreases fuel, 1
  {
    Run(host, g, bodies, f, depth, 0, Data(stack, Zeros(LocalCount(bodies[f])), world), fuel)
  }

  /** More fuel never changes a run that ended. */
  lemma {:induction false} MoreFuel<W>(
    host: Host<W>, g: Guards, bodies: seq<Body>, f: nat, depth: nat, pc: nat, d: Data<W>, fuel: nat, more: nat)
    requires f < |bodies| && fuel <= more
    requires !Run(host, g, bodies, f, depth, pc, d, fuel).OutOfFuel?
    ensures Run(host, g, bodies, f, depth, pc, d, more) == Run(host, g, bodies, f, depth, pc, d, fuel)
    decreases fuel
  {
    hide Execute, Permitted, LocalCount;
    if Permitted(g, f, depth, bodies[f], pc, d.stack) {
      match Execute(host, bodies[f], pc, d)
      case Stuck =>
      case Leave(_, _, _) =>
      case Next(pc', d') => MoreFuel(host, g, bodies, f, depth, pc', d', fuel - 1, more - 1);
      case Enter(target, keepsValue) =>
        if target < |bodies| && depth < host.maxCallDepth {
          var start := Data(d.stack, Zeros(LocalCount(bodies[target])), d.world);
          MoreFuel(host, g, bodies, target, depth + 1, 0, start, fuel - 1, more - 1);
          match Invoke(host, g, bodies, target, depth + 1, d.stack, d.world, fuel - 1)
          case OutOfFuel =>
          case Fault =>
          case Returned(v, stack, w) =>
            var d' := Data(if keepsValue then stack + [v] else stack, d.locals, w);
            MoreFuel(host, g, bodies, f, depth, pc + 1, d', fuel - 1, more - 1);
        }
    }
  }

  lemma {:induction false} UnguardedPermitsAll(f: nat, depth: nat, body: Body, pc: nat, stack: seq<u64>)
    ensures Permitted(Unguarded, f, depth, body, pc, stack)
  {
  }

  /** A guarded run that returns is an ordinary run: the guards only add faults. */
  lemma {:induction false} GuardedRunIsOrdinary<W>(
    host: Host<W>, g: Guards, bodies: seq<Body>, f: nat, depth: nat, pc: nat, d: Data<W>, fuel: nat)
    requires f < |bodies|
    requires Run(host, g, bodies, f, depth, pc, d, fuel).Returned?
    ensures Run(host, Unguarded, bodies, f, depth, pc, d, fuel) == Run(host, g, bodies, f, depth, pc, d, fuel)
    decreases fuel
  {
    hide Execute, Permitted, LocalCount;
    UnguardedPermitsAll(f, depth, bodies[f], pc, d.stack);
    match Execute(host, bodies[f], pc, d)
    case Leave(_, _, _) =>
    case Next(pc', d') => GuardedRunIsOrdinary(host, g, bodies, f, depth, pc', d', fuel - 1);
    case Enter(target, keepsValue) =>
      var start := Data(d.stack, Zeros(LocalCount(bodies[target])), d.world);
      GuardedRunIsOrdinary(host, g, bodies, target, depth + 1, 0, start, fuel - 1);
      var r := Invoke(host, g, bodies, target, depth + 1, d.stack, d.world, fuel - 1);
      var d' := Data(if keepsValue then r.stack + [r.value] else r.stack, d.locals, r.world);
      GuardedRunIsOrdinary(host, g, bodies, f, depth, pc + 1, d', fuel - 1);
  }
}
