/** What the instructions do that touch a frame or the flow of control, by the bytes of their opcodes. */
module MachineSteps {
  import opened Ir
  import opened Kernel
  import opened Machine

  /** A run that has `i` before it. */
  predicate Faces(bodies: seq<Body>, f: nat, pc: nat, i: Instruction) {
    f < |bodies| && pc < |bodies[f]| && bodies[f][pc] == i
  }

  /** The rest of an ordinary run. */
  function Rest<W>(host: Host<W>, bodies: seq<Body>, f: nat, depth: nat, pc: nat, d: Data<W>, fuel: nat): Outcome<W>
    requires f < |bodies|
  {
    Run(host, Unguarded, bodies, f, depth, pc, d, fuel)
  }

  /** 32 bits as a signed number, in 64. */
  predicate Extends(v: u64, r: u64) {
    var low := v % 0x1_0000_0000;
    if low < 0x8000_0000 then r == low else r == 0xFFFF_FFFF_0000_0000 + low
  }

  // ----- the stack -----

  /** PushI32 extends the sign; PushI64, PushF32 and PushF64 push the immediate as it is. */
  lemma {:induction false} Pushes<W>(
    host: Host<W>, bodies: seq<Body>, f: nat, depth: nat, pc: nat, d: Data<W>, fuel: nat, i: Instruction, v: u64)
    requires Faces(bodies, f, pc, i)
    requires (i.op == 1 && Extends(i.imm, v)) || (i.op in {2, 66, 67} && v == i.imm)
    ensures Rest(host, bodies, f, depth, pc, d, fuel + 1) == Rest(host, bodies, f, depth, pc + 1, d.(stack := d.stack + [v]), fuel)
  {
    UnguardedPermitsAll(f, depth, bodies[f], pc, d.stack);
  }

  /** Dup and Pop. */
  lemma {:induction false} DupsAndPops<W>(
    host: Host<W>, bodies: seq<Body>, f: nat, depth: nat, pc: nat, d: Data<W>, fuel: nat, i: Instruction, below: seq<u64>, v: u64)
    requires Faces(bodies, f, pc, i) && i.op in {8, 9}
    ensures d.stack == [] ==> Rest(host, bodies, f, depth, pc, d, fuel + 1) == Fault
    ensures d.stack == below + [v] ==>
              Rest(host, bodies, f, depth, pc, d, fuel + 1) ==
              Rest(host, bodies, f, depth, pc + 1, d.(stack := if i.op == 8 then below + [v, v] else below), fuel)
  {
    UnguardedPermitsAll(f, depth, bodies[f], pc, d.stack);
    if d.stack == below + [v] {
      assert below + [v] + [v] == below + [v, v] && (below + [v])[..|below|] == below;
    }
  }

  // ----- the frame -----

  /** LoadLocal, StoreLocal and AddressOfLocal; slots are sixteen bytes apart. */
  lemma {:induction false} Locals<W>(
    host: Host<W>, bodies: seq<Body>, f: nat, depth: nat, pc: nat, d: Data<W>, fuel: nat, i: Instruction, below: seq<u64>, v: u64)
    requires Faces(bodies, f, pc, i) && i.op in {3, 4, 5}
    ensures i.imm >= |d.locals| || (i.op == 4 && d.stack == []) ==> Rest(host, bodies, f, depth, pc, d, fuel + 1) == Fault
    ensures i.op == 3 && i.imm < |d.locals| ==>
              Rest(host, bodies, f, depth, pc, d, fuel + 1) ==
              Rest(host, bodies, f, depth, pc + 1, d.(stack := d.stack + [d.locals[i.imm]]), fuel)
    ensures i.op == 4 && i.imm < |d.locals| && d.stack == below + [v] ==>
              Rest(host, bodies, f, depth, pc, d, fuel + 1) ==
              Rest(host, bodies, f, depth, pc + 1, d.(stack := below, locals := d.locals[i.imm := v]), fuel)
    ensures i.op == 5 && i.imm < |d.locals| && i.imm < 0x1000_0000_0000_0000 ==>
              Rest(host, bodies, f, depth, pc, d, fuel + 1) ==
              Rest(host, bodies, f, depth, pc + 1, d.(stack := d.stack + [16 * i.imm]), fuel)
  {
    UnguardedPermitsAll(f, depth, bodies[f], pc, d.stack);
    if d.stack == below + [v] {
      assert (below + [v])[..|below|] == below;
    }
  }

  /** LoadIndirect reads a slot of the frame, or of the heap if the top bit of the address is set. */
  lemma {:induction false} LoadsIndirectly<W>(
    host: Host<W>, bodies: seq<Body>, f: nat, depth: nat, pc: nat, d: Data<W>, fuel: nat, i: Instruction, below: seq<u64>, a: u64)
    requires Faces(bodies, f, pc, i) && i.op == 6
    ensures d.stack == [] ==> Rest(host, bodies, f, depth, pc, d, fuel + 1) == Fault
    ensures d.stack == below + [a] ==>
              var r := Rest(host, bodies, f, depth, pc, d, fuel + 1);
              if a % 16 != 0 then r == Fault
              else if a >= 0x8000_0000_0000_0000 then
                match host.load(d.world, a)
                case None => r == Fault
                case Some(v) => r == Rest(host, bodies, f, depth, pc + 1, d.(stack := below + [v]), fuel)
              else if a / 16 >= |d.locals| then r == Fault
              else r == Rest(host, bodies, f, depth, pc + 1, d.(stack := below + [d.locals[a / 16]]), fuel)
  {
    UnguardedPermitsAll(f, depth, bodies[f], pc, d.stack);
    if d.stack == below + [a] {
      assert (below + [a])[..|below|] == below;
    }
  }

  /** StoreIndirect takes the value from the top and the address from below it, and leaves the value. */
  lemma {:induction false} StoresIndirectly<W>(
    host: Host<W>, bodies: seq<Body>, f: nat, depth: nat, pc: nat, d: Data<W>, fuel: nat, i: Instruction, below: seq<u64>, a: u64, v: u64)
    requires Faces(bodies, f, pc, i) && i.op == 7
    ensures |d.stack| < 2 ==> Rest(host, bodies, f, depth, pc, d, fuel + 1) == Fault
    ensures d.stack == below + [a, v] ==>
              var r := Rest(host, bodies, f, depth, pc, d, fuel + 1);
              var stack := below + [v];
              if a % 16 != 0 then r == Fault
              else if a >= 0x8000_0000_0000_0000 then
                match host.store(d.world, a, v)
                case None => r == Fault
                case Some(w) => r == Rest(host, bodies, f, depth, pc + 1, d.(stack := stack, world := w), fuel)
              else if a / 16 >= |d.locals| then r == Fault
              else r == Rest(host, bodies, f, depth, pc + 1, d.(stack := stack, locals := d.locals[a / 16 := v]), fuel)
  {
    UnguardedPermitsAll(f, depth, bodies[f], pc, d.stack);
    if d.stack == below + [a, v] {
      assert Pop(Pop(d.stack)) == below && d.stack[|d.stack| - 2] == a && Top(d.stack) == v;
    }
  }

  /** FileReadByte leaves 0 and writes the byte, or leaves the code of the failure. */
  lemma {:induction false} ReadsBytes<W>(
    host: Host<W>, bodies: seq<Body>, f: nat, depth: nat, pc: nat, d: Data<W>, fuel: nat, i: Instruction, below: seq<u64>, handle: u64)
    requires Faces(bodies, f, pc, i) && i.op == 57
    ensures d.stack == [] || i.imm >= |d.locals| ==> Rest(host, bodies, f, depth, pc, d, fuel + 1) == Fault
    ensures d.stack == below + [handle] && i.imm < |d.locals| ==>
              var r := Rest(host, bodies, f, depth, pc, d, fuel + 1);
              match host.readByte(handle, d.world)
              case (Byte(v), w) => r == Rest(host, bodies, f, depth, pc + 1, Data(below + [0], d.locals[i.imm := v], w), fuel)
              case (NoByte(code), w) => r == Rest(host, bodies, f, depth, pc + 1, Data(below + [code], d.locals, w), fuel)
  {
    UnguardedPermitsAll(f, depth, bodies[f], pc, d.stack);
    if d.stack == below + [handle] {
      assert (below + [handle])[..|below|] == below;
    }
  }

  // ----- control -----

  /** Jump, and JumpIfZero, which takes its condition off the stack; a target may be the end. */
  lemma {:induction false} Jumps<W>(
    host: Host<W>, bodies: seq<Body>, f: nat, depth: nat, pc: nat, d: Data<W>, fuel: nat, i: Instruction, below: seq<u64>, v: u64)
    requires Faces(bodies, f, pc, i) && i.op in {37, 38}
    ensures i.imm > |bodies[f]| || (i.op == 37 && d.stack == []) ==> Rest(host, bodies, f, depth, pc, d, fuel + 1) == Fault
    ensures i.op == 38 && i.imm <= |bodies[f]| ==>
              Rest(host, bodies, f, depth, pc, d, fuel + 1) == Rest(host, bodies, f, depth, i.imm, d, fuel)
    ensures i.op == 37 && i.imm <= |bodies[f]| && d.stack == below + [v] ==>
              Rest(host, bodies, f, depth, pc, d, fuel + 1) ==
              Rest(host, bodies, f, depth, if v == 0 then i.imm else pc + 1, d.(stack := below), fuel)
  {
    UnguardedPermitsAll(f, depth, bodies[f], pc, d.stack);
    if d.stack == below + [v] {
      assert (below + [v])[..|below|] == below;
    }
  }

  /** The returns: of nothing, of a signed 32-bit number, of the low 32 bits, and of all 64. */
  lemma {:induction false} Returns<W>(
    host: Host<W>, bodies: seq<Body>, f: nat, depth: nat, pc: nat, d: Data<W>, fuel: nat, i: Instruction, below: seq<u64>, v: u64, r: u64)
    requires Faces(bodies, f, pc, i) && i.op in {39, 40, 41, 104, 105}
    ensures i.op == 39 ==> Rest(host, bodies, f, depth, pc, d, fuel + 1) == Returned(0, d.stack, d.world)
    ensures i.op != 39 && d.stack == [] ==> Rest(host, bodies, f, depth, pc, d, fuel + 1) == Fault
    ensures i.op != 39 && d.stack == below + [v] &&
            (if i.op == 40 then Extends(v, r) else if i.op == 104 then r == v % 0x1_0000_0000 else r == v) ==>
              Rest(host, bodies, f, depth, pc, d, fuel + 1) == Returned(r, below, d.world)
  {
    UnguardedPermitsAll(f, depth, bodies[f], pc, d.stack);
    if d.stack == below + [v] {
      assert (below + [v])[..|below|] == below;
    }
  }

  /** A call runs the target in a frame of zeroes, on the same stack, if there is such a function
      and room for a frame; Call pushes what it returns, and CallVoid drops it. */
  lemma {:induction false} Calls<W>(
    host: Host<W>, bodies: seq<Body>, f: nat, depth: nat, pc: nat, d: Data<W>, fuel: nat, i: Instruction)
    requires Faces(bodies, f, pc, i) && i.op in {107, 108}
    ensures i.imm >= |bodies| || depth >= host.maxCallDepth ==> Rest(host, bodies, f, depth, pc, d, fuel + 1) == Fault
    ensures i.imm < |bodies| && depth < host.maxCallDepth ==>
              var frame := Zeros(LocalCount(bodies[i.imm]));
              var r := Rest(host, bodies, f, depth, pc, d, fuel + 1);
              match Rest(host, bodies, i.imm, depth + 1, 0, Data(d.stack, frame, d.world), fuel)
              case Returned(v, stack, w) =>
                r == Rest(host, bodies, f, depth, pc + 1, Data(if i.op == 107 then stack + [v] else stack, d.locals, w), fuel)
              case Fault => r == Fault
              case OutOfFuel => r == OutOfFuel
  {
    hide LocalCount;
    UnguardedPermitsAll(f, depth, bodies[f], pc, d.stack);
    assert Execute(host, bodies[f], pc, d) == Enter(i.imm, i.op == 107);
    if i.imm < |bodies| {
      assert Invoke(host, Unguarded, bodies, i.imm, depth + 1, d.stack, d.world, fuel) ==
             Rest(host, bodies, i.imm, depth + 1, 0, Data(d.stack, Zeros(LocalCount(bodies[i.imm])), d.world), fuel);
    }
  }

  /** Every other opcode is the host's, and a run that comes to the end of its code is at fault. */
  lemma {:induction false} OthersAreTheHosts<W>(
    host: Host<W>, bodies: seq<Body>, f: nat, depth: nat, pc: nat, d: Data<W>, fuel: nat, i: Instruction)
    requires Faces(bodies, f, pc, i)
    requires i.op !in {1, 2, 3, 4, 5, 6, 7, 8, 9, 37, 38, 39, 40, 41, 57, 66, 67, 104, 105, 107, 108}
    ensures match host.pure(i.op, i.imm, d.stack, d.world)
            case None => Rest(host, bodies, f, depth, pc, d, fuel + 1) == Fault
            case Some(r) =>
              Rest(host, bodies, f, depth, pc, d, fuel + 1) == Rest(host, bodies, f, depth, pc + 1, Data(r.0, d.locals, r.1), fuel)
    ensures Rest(host, bodies, f, depth, |bodies[f]|, d, fuel + 1) == Fault && Rest(host, bodies, f, depth, pc, d, 0) == OutOfFuel
  {
    UnguardedPermitsAll(f, depth, bodies[f], pc, d.stack);
    UnguardedPermitsAll(f, depth, bodies[f], |bodies[f]|, d.stack);
  }

  // ----- comparisons -----

  /** The word of a signed number. */
  function WordOf(n: int): u64
    requires -0x8000_0000_0000_0000 <= n < 0x8000_0000_0000_0000
  {
    if n < 0 then 0x1_0000_0000_0000_0000 + n else n
  }

  /** Opcodes 21 to 26 compare as 27 to 32 do: signed numbers, for equality, inequality and the
      four orders in turn. */
  lemma {:induction false} SignedComparisons(below: seq<u64>, a: int, b: int, k: nat)
    requires -0x8000_0000_0000_0000 <= a < 0x8000_0000_0000_0000 && -0x8000_0000_0000_0000 <= b < 0x8000_0000_0000_0000 && k < 6
    ensures var holds := [a == b, a != b, a < b, a <= b, a > b, a >= b][k];
            var r := Continue(below + [if holds then 1 else 0]);
            var stack := below + [WordOf(a), WordOf(b)];
            Compare(21 + k, stack) == r && Compare(27 + k, stack) == r
  {
    assert (below + [WordOf(a), WordOf(b)])[..|below|] == below;
  }

  /** Opcodes 33 to 36 compare unsigned words. */
  lemma {:induction false} UnsignedComparisons(below: seq<u64>, a: u64, b: u64, k: nat)
    requires k < 4
    ensures var holds := [a < b, a <= b, a > b, a >= b][k];
            Compare(33 + k, below + [a, b]) == Continue(below + [if holds then 1 else 0])
  {
    assert (below + [a, b])[..|below|] == below;
  }
}
