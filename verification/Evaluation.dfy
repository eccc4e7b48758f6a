/** Evaluation of a requirement predicate under a budget, without a cache. */
module Evaluation {
  import opened Ir
  import opened CompileTime
  import opened Decimals
  import opened Kernel

  datatype Kind = Success | Unsatisfied | Invalid | Denied | Exhausted | CacheMismatch | Internal

  datatype Provenance = Provenance(
    definitionPath: string, predicatePath: string, sourcePath: string, sourceText: string,
    line: u32, column: u32, nodeId: u64, handle: u64)

  datatype Result = Result(kind: Kind, fault: Option<Kind>, provenance: Provenance, message: string, value: bool)

  function Fault(kind: Kind, p: Provenance, message: string): Result {
    Result(kind, Some(kind), p, message, false)
  }

  // ----- bytes -----

  const MAX: u64 := TWO64 - 1

  /** `addBudgetBytes`. */
  function AddBytes(left: nat, right: nat): nat { if MAX - left < right then MAX else left + right }

  function Saturate(n: nat): nat { if n < MAX then n else MAX }

  function ValueSum(operands: seq<Operand>): nat {
    if operands == [] then 0
    else ValueSum(operands[..|operands| - 1]) + |operands[|operands| - 1].kind| + |operands[|operands| - 1].text|
  }

  /** Two positions of four bytes, and the handle, for each operand. */
  function HandleSum(operands: seq<Operand>): nat {
    if operands == [] then 0 else HandleSum(operands[..|operands| - 1]) + 8 + |operands[|operands| - 1].handle|
  }

  function StorageSum(s: Subject): nat { ValueSum(s.operands) + |s.sourceText| + HandleSum(s.operands) }

  function HostSum(s: Subject): nat {
    |s.definitionPath| + |s.predicateName| + |s.sourceText| + |s.outcome| + |s.diagnostic|
  }

  /** Line and column take four bytes, the two ids eight. */
  function ProvenanceSum(p: Provenance): nat {
    |p.definitionPath| + |p.predicatePath| + |p.sourcePath| + |p.sourceText| + 24
  }

  // ----- budgets -----

  function ExhaustMessage(name: string, used: nat, limit: u64): string {
    "compile-time " + name + " budget exceeded (used " + Decimal(used) + ", limit " + Decimal(limit) + ")"
  }

  function Exhaust(name: string, used: nat, limit: u64, p: Provenance): Result {
    Fault(Exhausted, p, ExhaustMessage(name, used, limit))
  }

  /** The checks every answer with a message passes. */
  function Guarded(b: Budget, r: Result): Result {
    if |r.message| > b.diagnosticBytes
    then Exhaust("diagnostic payload", |r.message|, b.diagnosticBytes, r.provenance)
    else if Saturate(ProvenanceSum(r.provenance)) > b.provenanceBytes
    then Exhaust("provenance payload", Saturate(ProvenanceSum(r.provenance)), b.provenanceBytes, r.provenance)
    else r
  }

  predicate HasPrefix(text: string, prefix: string) { |prefix| <= |text| && text[..|prefix|] == prefix }

  predicate IsUserPath(path: string) { path != "" && !HasPrefix(path, "/std/meta/") }

  /** The checks made before anything is evaluated, in their order. */
  function Precheck(b: Budget, s: Subject, p: Provenance): Option<Result> {
    var userCalls: nat := if IsUserPath(p.predicatePath) then 1 else 0;
    if 1 > b.frames then Some(Exhaust("frame", 1, b.frames, p))
    else if |s.operands| + 1 > b.steps then Some(Exhaust("evaluator step", |s.operands| + 1, b.steps, p))
    else if userCalls > b.userCalls then Some(Exhaust("user predicate call", userCalls, b.userCalls, p))
    else if Saturate(ValueSum(s.operands)) > b.valueBytes
    then Some(Exhaust("value storage", Saturate(ValueSum(s.operands)), b.valueBytes, p))
    else if Saturate(StorageSum(s)) > b.storageBytes
    then Some(Exhaust("storage byte", Saturate(StorageSum(s)), b.storageBytes, p))
    else if Saturate(HostSum(s)) > b.hostBytes
    then Some(Exhaust("host byte", Saturate(HostSum(s)), b.hostBytes, p))
    else None
  }

  // ----- comparisons of literal values -----

  datatype Comparison = Equal | NotEqual | Less | LessEqual | Greater | GreaterEqual

  function ComparisonOf(path: string): Option<Comparison> {
    if path == "/std/meta/value_equals" then Some(Equal)
    else if path == "/std/meta/value_not_equals" then Some(NotEqual)
    else if path == "/std/meta/value_less" then Some(Less)
    else if path == "/std/meta/value_less_equal" then Some(LessEqual)
    else if path == "/std/meta/value_greater" then Some(Greater)
    else if path == "/std/meta/value_greater_equal" then Some(GreaterEqual)
    else None
  }

  function Sign(c: Comparison): string {
    match c
    case Equal => "==" case NotEqual => "!=" case Less => "<"
    case LessEqual => "<=" case Greater => ">" case GreaterEqual => ">="
  }

  /** The kernel opcode that decides a comparison. */
  function OpcodeOf(c: Comparison): (op: Opcode)
    ensures IsComparison(op)
  {
    match c
    case Equal => CMP_EQ_I64 case NotEqual => CMP_NE_I64 case Less => CMP_LT_U64
    case LessEqual => CMP_LE_U64 case Greater => CMP_GT_U64 case GreaterEqual => CMP_GE_U64
  }

  /** A whole text of digits that fits 64 bits. */
  function Parse(text: string): Option<u64> {
    if text != "" && AllDigits(text) && Value(text) <= MAX then Some(Value(text)) else None
  }

  /** Numbers printed are read back. */
  lemma {:induction false} ParseUndoesDecimal(n: nat)
    ensures Parse(Decimal(n)) == if n <= MAX then Some(n) else None
  {
    DecimalReads(n);
  }

  function OperandFlaw(path: string, o: Operand): Option<string> {
    if o.kind != "literal_compile_time_argument"
    then Some("non-constant value operand for requirement predicate " + path + ": " + o.text)
    else if Parse(o.text).None? then Some("unsupported value operand for requirement predicate " + path + ": " + o.text)
    else None
  }

  function CompareMessage(c: Comparison, satisfied: bool, a: u64, b: u64): string {
    (if satisfied then "value predicate satisfied: " else "value predicate failed: ") +
    Decimal(a) + " " + Sign(c) + " " + Decimal(b)
  }

  function ArityMessage(path: string): string {
    "requirement predicate " + path + " expects two value operands"
  }

  function CompareVerdict(c: Comparison, s: Subject, p: Provenance): Result {
    if |s.operands| != 2
    then Fault(Invalid, p, ArityMessage(p.predicatePath))
    else if OperandFlaw(p.predicatePath, s.operands[0]).Some?
    then Fault(Invalid, p, OperandFlaw(p.predicatePath, s.operands[0]).value)
    else if OperandFlaw(p.predicatePath, s.operands[1]).Some?
    then Fault(Invalid, p, OperandFlaw(p.predicatePath, s.operands[1]).value)
    else
      KernelVerdict(c, Parse(s.operands[0].text).value, Parse(s.operands[1].text).value, p)
  }

  const UNDERFLOW := "IR stack underflow on compare"
  const NO_RESULT := "VM kernel value predicate produced no result"

  /** What the kernel leaves of the two operands on its stack. */
  function KernelVerdict(c: Comparison, a: u64, b: u64, p: Provenance): Result {
    match Compare(OpcodeOf(c), [a, b])
    case Underflow => Fault(Invalid, p, UNDERFLOW)
    case Continue(stack) =>
      if stack == [] then Fault(Internal, p, NO_RESULT)
      else
        var satisfied := stack[|stack| - 1] != 0;
        var message := CompareMessage(c, satisfied, a, b);
        if satisfied then Result(Success, None, p, message, true) else Fault(Unsatisfied, p, message)
  }

  predicate IsLiteral(o: Operand, n: u64) { o.kind == "literal_compile_time_argument" && o.text == Decimal(n) }

  lemma {:induction false} LiteralIsSound(path: string, o: Operand, n: u64)
    requires IsLiteral(o, n)
    ensures OperandFlaw(path, o).None? && Parse(o.text) == Some(n)
  {
    hide Decimal, Parse;
    ParseUndoesDecimal(n);
  }

  /** The relation a comparison stands for, on unsigned numbers. */
  predicate Holds(c: Comparison, a: u64, b: u64) {
    match c
    case Equal => a == b case NotEqual => a != b case Less => a < b
    case LessEqual => a <= b case Greater => a > b case GreaterEqual => a >= b
  }

  /** The opcode chosen for a comparison decides that relation. */
  lemma {:induction false} KernelDecides(c: Comparison, a: u64, b: u64, p: Provenance)
    ensures var r := KernelVerdict(c, a, b, p);
            r.value == Holds(c, a, b) && r.kind == (if Holds(c, a, b) then Success else Unsatisfied) && r.provenance == p
  {
    hide CompareMessage;
    assert [a, b][..0] + [1] == [1] && [a, b][..0] + [0] == [0];
  }

  lemma {:induction false} LiteralsAreCompared(c: Comparison, s: Subject, p: Provenance, a: u64, b: u64)
    requires |s.operands| == 2 && IsLiteral(s.operands[0], a) && IsLiteral(s.operands[1], b)
    ensures var r := CompareVerdict(c, s, p);
            && r.value == Holds(c, a, b) && r.kind == (if Holds(c, a, b) then Success else Unsatisfied)
            && r.provenance == p
  {
    hide Decimal, Parse, OperandFlaw, IsLiteral, KernelVerdict, ArityMessage, Holds;
    LiteralIsSound(p.predicatePath, s.operands[0], a);
    LiteralIsSound(p.predicatePath, s.operands[1], b);
    KernelDecides(c, a, b, p);
  }

  lemma {:induction false} PathsCompare()
    ensures ComparisonOf("/std/meta/value_equals") == Some(Equal)
    ensures ComparisonOf("/std/meta/value_not_equals") == Some(NotEqual)
    ensures ComparisonOf("/std/meta/value_less") == Some(Less)
    ensures ComparisonOf("/std/meta/value_less_equal") == Some(LessEqual)
    ensures ComparisonOf("/std/meta/value_greater") == Some(Greater)
    ensures ComparisonOf("/std/meta/value_greater_equal") == Some(GreaterEqual)
  {
    assert "/std/meta/value_not_equals"[16] != "/std/meta/value_less_equal"[16];
  }

  // ----- published outcomes -----

  function KindOf(outcome: string): Kind {
    if outcome == "satisfied" || outcome == "success" then Success
    else if outcome == "unsatisfied" then Unsatisfied
    else if outcome == "invalid_evaluation" then Invalid
    else if outcome == "denied_effect" then Denied
    else if outcome == "budget_exhausted" then Exhausted
    else if outcome == "cache_corrupt_or_version_mismatch" then CacheMismatch
    else if outcome == "internal_compiler_error" then Internal
    else Invalid
  }

  function OutcomeVerdict(s: Subject, p: Provenance): Result {
    var kind := KindOf(s.outcome);
    if kind == Success then Result(Success, None, p, s.diagnostic, true) else Fault(kind, p, s.diagnostic)
  }

  /** Kinds that are reported without a look at the size of the report. */
  predicate IsUnguarded(kind: Kind) { kind == Denied || kind == CacheMismatch || kind == Exhausted }

  function Evaluate(b: Budget, s: Subject, p: Provenance): Result {
    match ComparisonOf(p.predicatePath)
    case Some(c) => Guarded(b, CompareVerdict(c, s, p))
    case None =>
      var r := OutcomeVerdict(s, p);
      if IsUnguarded(r.kind) then r else Guarded(b, r)
  }

  /** The answer without a cache. */
  function Direct(b: Budget, s: Subject, p: Provenance): Result {
    match Precheck(b, s, p) case Some(r) => r case None => Evaluate(b, s, p)
  }

  /** On two printed numbers each value predicate is the relation its name says. */
  lemma {:induction false} ValuePredicatesCompare(s: Subject, p: Provenance, a: u64, b: u64)
    requires |s.operands| == 2 && IsLiteral(s.operands[0], a) && IsLiteral(s.operands[1], b)
    ensures p.predicatePath == "/std/meta/value_equals" ==> (Verdict(s, p).value <==> a == b)
    ensures p.predicatePath == "/std/meta/value_not_equals" ==> (Verdict(s, p).value <==> a != b)
    ensures p.predicatePath == "/std/meta/value_less" ==> (Verdict(s, p).value <==> a < b)
    ensures p.predicatePath == "/std/meta/value_less_equal" ==> (Verdict(s, p).value <==> a <= b)
    ensures p.predicatePath == "/std/meta/value_greater" ==> (Verdict(s, p).value <==> a > b)
    ensures p.predicatePath == "/std/meta/value_greater_equal" ==> (Verdict(s, p).value <==> a >= b)
  {
    hide ComparisonOf, CompareVerdict, IsLiteral, KindOf;
    PathsCompare();
    match ComparisonOf(p.predicatePath)
    case Some(c) => LiteralsAreCompared(c, s, p, a, b);
    case None =>
  }

  // ----- what a budget can change -----

  /** The answer, were there no budget. */
  function Verdict(s: Subject, p: Provenance): Result {
    match ComparisonOf(p.predicatePath)
    case Some(c) => CompareVerdict(c, s, p)
    case None => OutcomeVerdict(s, p)
  }

  predicate IsSilent(s: Subject, p: Provenance) {
    ComparisonOf(p.predicatePath).None? && IsUnguarded(KindOf(s.outcome))
  }

  /** Every limit is at least what the evaluation needs of it. */
  predicate Fits(b: Budget, s: Subject, p: Provenance) {
    && 1 <= b.frames
    && |s.operands| + 1 <= b.steps
    && (IsUserPath(p.predicatePath) ==> 1 <= b.userCalls)
    && Saturate(ValueSum(s.operands)) <= b.valueBytes
    && Saturate(StorageSum(s)) <= b.storageBytes
    && Saturate(HostSum(s)) <= b.hostBytes
    && (IsSilent(s, p) || (|Verdict(s, p).message| <= b.diagnosticBytes && Saturate(ProvenanceSum(p)) <= b.provenanceBytes))
  }

  predicate Covers(b: Budget, c: Budget) {
    && b.preparationSteps <= c.preparationSteps && b.steps <= c.steps && b.frames <= c.frames
    && b.userCalls <= c.userCalls && b.valueBytes <= c.valueBytes && b.storageBytes <= c.storageBytes
    && b.hostBytes <= c.hostBytes && b.diagnosticBytes <= c.diagnosticBytes && b.provenanceBytes <= c.provenanceBytes
  }

  /** A budget decides one thing only: between the verdict and exhaustion, and that by
      comparing each limit with what is needed. */
  lemma {:induction false} BudgetIsThreshold(b: Budget, s: Subject, p: Provenance)
    ensures Fits(b, s, p) ==> Direct(b, s, p) == Verdict(s, p)
    ensures !Fits(b, s, p) ==>
              var r := Direct(b, s, p); r.kind == Exhausted && r.fault == Some(Exhausted) && r.provenance == p && !r.value
  {
    hide Saturate, Decimal, ComparisonOf, KindOf, CompareMessage, ValueSum, StorageSum, HostSum, IsUserPath, OperandFlaw, Compare,
         ExhaustMessage, ArityMessage, Parse;
  }

  /** If an evaluation is not exhausted, a budget at least as large gives the same result. */
  lemma {:induction false} BudgetsAreMonotone(b: Budget, c: Budget, s: Subject, p: Provenance)
    requires Covers(b, c) && Direct(b, s, p).kind != Exhausted
    ensures Direct(c, s, p) == Direct(b, s, p)
  {
    hide Direct, Saturate, Verdict, ValueSum, StorageSum, HostSum, IsSilent;
    BudgetIsThreshold(b, s, p);
    BudgetIsThreshold(c, s, p);
  }

  // ----- positions do not matter -----

  function Blank(p: Provenance): Provenance { p.(line := 0, column := 0) }

  /** A result but for its source line and column. */
  function Forget(r: Result): Result { r.(provenance := Blank(r.provenance)) }

  lemma {:induction false} PrecheckForgets(b: Budget, s: Subject, p: Provenance)
    ensures match Precheck(b, s, p)
            case None => Precheck(b, s, Blank(p)).None?
            case Some(r) => Precheck(b, s, Blank(p)) == Some(Forget(r))
  {
    hide Saturate, ValueSum, StorageSum, HostSum, IsUserPath, ExhaustMessage;
  }

  lemma {:induction false} GuardedForgets(b: Budget, r: Result)
    ensures Forget(Guarded(b, r)) == Guarded(b, Forget(r)) && Forget(r).kind == r.kind
  {
    hide Saturate, ExhaustMessage;
  }

  lemma {:induction false} VerdictForgets(s: Subject, p: Provenance)
    ensures Forget(Verdict(s, p)) == Verdict(s, Blank(p))
  {
    hide ComparisonOf, KindOf, CompareMessage, OperandFlaw, Compare, ArityMessage, Parse, UNDERFLOW, NO_RESULT;
  }

  /** Neither the answer nor the budget it takes depends on the position it is asked for. */
  lemma {:induction false} PositionsDoNotMatter(b: Budget, s: Subject, p: Provenance)
    ensures Forget(Direct(b, s, p)) == Direct(b, s, Blank(p))
  {
    hide Precheck, Guarded, CompareVerdict, OutcomeVerdict, ComparisonOf;
    PrecheckForgets(b, s, p);
    VerdictForgets(s, p);
    GuardedForgets(b, Verdict(s, p));
  }

  /** The provenance of a fact: what its texts and ids say, and its position, cut off at 0. */
  function ProvenanceOf(s: Subject, fact: Fact): Provenance {
    Provenance(s.definitionPath, s.predicateName, "", s.sourceText, if fact.line < 0 then 0 else fact.line,
               if fact.column < 0 then 0 else fact.column, s.nodeId, s.handle)
  }
}
