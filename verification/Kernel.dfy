/** The integer comparisons of the VM kernel. */
module Kernel {
  import opened Ir

  const CMP_EQ_I32: Opcode := 21
  const CMP_NE_I32: Opcode := 22
  const CMP_LT_I32: Opcode := 23
  const CMP_LE_I32: Opcode := 24
  const CMP_GT_I32: Opcode := 25
  const CMP_GE_I32: Opcode := 26
  const CMP_EQ_I64: Opcode := 27
  const CMP_NE_I64: Opcode := 28
  const CMP_LT_I64: Opcode := 29
  const CMP_LE_I64: Opcode := 30
  const CMP_GT_I64: Opcode := 31
  const CMP_GE_I64: Opcode := 32
  const CMP_LT_U64: Opcode := 33
  const CMP_LE_U64: Opcode := 34
  const CMP_GT_U64: Opcode := 35
  const CMP_GE_U64: Opcode := 36

  predicate IsComparison(op: Opcode) { CMP_EQ_I32 <= op <= CMP_GE_U64 }

  function Signed(v: u64): int { if v < TWO63 then v else v - TWO64 }

  /** Equality is that of the words; order is that of signed words, for the 32-bit forms too,
      except in the unsigned forms. */
  predicate Relates(op: Opcode, lhs: u64, rhs: u64) {
    if op == CMP_EQ_I32 || op == CMP_EQ_I64 then lhs == rhs
    else if op == CMP_NE_I32 || op == CMP_NE_I64 then lhs != rhs
    else if op == CMP_LT_I32 || op == CMP_LT_I64 then Signed(lhs) < Signed(rhs)
    else if op == CMP_LE_I32 || op == CMP_LE_I64 then Signed(lhs) <= Signed(rhs)
    else if op == CMP_GT_I32 || op == CMP_GT_I64 then Signed(lhs) > Signed(rhs)
    else if op == CMP_GE_I32 || op == CMP_GE_I64 then Signed(lhs) >= Signed(rhs)
    else if op == CMP_LT_U64 then lhs < rhs
    else if op == CMP_LE_U64 then lhs <= rhs
    else if op == CMP_GT_U64 then lhs > rhs
    else op == CMP_GE_U64 && lhs >= rhs
  }

  datatype Effect = Underflow | Continue(stack: seq<u64>)

  /** Replaces the two topmost words by the outcome; the right operand is on top. */
  function Compare(op: Opcode, stack: seq<u64>): Effect
    requires IsComparison(op)
  {
    var n := |stack|;
    if n < 2 then Underflow
    else Continue(stack[..n - 2] + [if Relates(op, stack[n - 2], stack[n - 1]) then 1 else 0])
  }
}
