/** What an evaluation answers, in terms of the texts of the fact and the numbers of the budget. */
module EvaluationOutcomes {
  import opened Ir
  import opened CompileTime
  import opened Decimals
  import opened Numerals
  import opened Evaluation

  // ----- what is needed -----

  /** Kinds and texts of the operands, one behind the other. */
  function Written(operands: seq<Operand>): string {
    if operands == [] then "" else operands[0].kind + operands[0].text + Written(operands[1..])
  }

  function Handles(operands: seq<Operand>): string {
    if operands == [] then "" else operands[0].handle + Handles(operands[1..])
  }

  lemma {:induction false} WrittenPush(operands: seq<Operand>, o: Operand)
    ensures Written(operands + [o]) == Written(operands) + o.kind + o.text
    ensures Handles(operands + [o]) == Handles(operands) + o.handle
  {
    if operands == [] {
      assert operands + [o] == [o] && [o][1..] == [];
    } else {
      assert (operands + [o])[1..] == operands[1..] + [o];
      WrittenPush(operands[1..], o);
      assert Written(operands) == operands[0].kind + operands[0].text + Written(operands[1..]);
    }
  }

  lemma {:induction false} SumsAreLengths(operands: seq<Operand>)
    ensures ValueSum(operands) == |Written(operands)|
    ensures HandleSum(operands) == |Handles(operands)| + 8 * |operands|
  {
    if operands != [] {
      var n := |operands| - 1;
      SumsAreLengths(operands[..n]);
      WrittenPush(operands[..n], operands[n]);
      assert operands == operands[..n] + [operands[n]];
    }
  }

  /** A limit, what is used of it, and its name in a message. */
  datatype Need = Need(name: string, used: nat, limit: u64)

  function Capped(n: nat): nat { if n < 0xFFFF_FFFF_FFFF_FFFF then n else 0xFFFF_FFFF_FFFF_FFFF }

  /** What an evaluation needs, in the order in which it is asked for. */
  function Needs(b: Budget, s: Subject, p: Provenance): (needs: seq<Need>)
    ensures |needs| == 6
  {
    [Need("frame", 1, b.frames),
     Need("evaluator step", |s.operands| + 1, b.steps),
     Need("user predicate call", if p.predicatePath == "" || "/std/meta/" <= p.predicatePath then 0 else 1, b.userCalls),
     Need("value storage", Capped(|Written(s.operands)|), b.valueBytes),
     Need("storage byte", Capped(|Written(s.operands) + s.sourceText + Handles(s.operands)| + 8 * |s.operands|), b.storageBytes),
     Need("host byte", Capped(|s.definitionPath + s.predicateName + s.sourceText + s.outcome + s.diagnostic|), b.hostBytes)]
  }

  /** What the report of a message needs. */
  function ReportNeeds(b: Budget, message: string, p: Provenance): (needs: seq<Need>)
    ensures |needs| == 2
  {
    [Need("diagnostic payload", |message|, b.diagnosticBytes),
     Need("provenance payload", Capped(|p.definitionPath + p.predicatePath + p.sourcePath + p.sourceText| + 24), b.provenanceBytes)]
  }

  predicate Met(n: Need) { n.used <= n.limit }

  predicate AllMet(needs: seq<Need>) { forall i :: 0 <= i < |needs| ==> Met(needs[i]) }

  /** Need number `k` is the first that is not met. */
  predicate Short(needs: seq<Need>, k: nat) {
    k < |needs| && !Met(needs[k]) && forall i :: 0 <= i < k ==> Met(needs[i])
  }

  function Complaint(n: Need, p: Provenance): Result {
    Result(Exhausted, Some(Exhausted), p,
           "compile-time " + n.name + " budget exceeded (used " + Decimal(n.used) + ", limit " + Decimal(n.limit) + ")", false)
  }

  lemma {:induction false} PrefixIsLessEqual(text: string, prefix: string)
    ensures HasPrefix(text, prefix) <==> prefix <= text
  {
  }

  lemma {:induction false} UserPaths(path: string)
    ensures IsUserPath(path) <==> !(path == "" || "/std/meta/" <= path)
  {
    hide HasPrefix;
    PrefixIsLessEqual(path, "/std/meta/");
  }

  lemma {:induction false} CappedSaturates(n: nat)
    ensures Saturate(n) == Capped(n)
  {
  }

  lemma {:induction false} NeedsAreUsed(b: Budget, s: Subject, p: Provenance)
    ensures var n := Needs(b, s, p);
            && n[2].used == (if IsUserPath(p.predicatePath) then 1 else 0)
            && n[3].used == Saturate(ValueSum(s.operands)) && n[4].used == Saturate(StorageSum(s))
            && n[5].used == Saturate(HostSum(s))
  {
    hide IsUserPath, Saturate, Capped, ValueSum, HandleSum, Written, Handles;
    UserPaths(p.predicatePath);
    SumsAreLengths(s.operands);
    CappedSaturates(ValueSum(s.operands));
    CappedSaturates(StorageSum(s));
    CappedSaturates(HostSum(s));
  }

  lemma {:induction false} ComplaintIsExhaust(n: Need, p: Provenance)
    ensures Exhaust(n.name, n.used, n.limit, p) == Complaint(n, p)
  {
    hide Decimal;
  }

  /** The checks before an evaluation report the first need that is not met, by its name, and
      nothing else. */
  lemma {:induction false} FirstShortageIsReported(b: Budget, s: Subject, p: Provenance, k: nat)
    requires Short(Needs(b, s, p), k)
    ensures Direct(b, s, p) == Complaint(Needs(b, s, p)[k], p)
  {
    hide IsUserPath, Saturate, ValueSum, HostSum, StorageSum, Written, Handles, Exhaust, Complaint, Capped, Evaluate;
    NeedsAreUsed(b, s, p);
    var needs := Needs(b, s, p);
    ComplaintIsExhaust(needs[k], p);
    assert k == 0 || k == 1 || k == 2 || k == 3 || k == 4 || k == 5;
    assert k > 0 ==> Met(needs[0]);
    assert k > 1 ==> Met(needs[1]);
    assert k > 2 ==> Met(needs[2]);
    assert k > 3 ==> Met(needs[3]);
    assert k > 4 ==> Met(needs[4]);
  }

  lemma {:induction false} NeedsAreChecked(b: Budget, s: Subject, p: Provenance)
    ensures Precheck(b, s, p).None? <==> AllMet(Needs(b, s, p))
  {
    hide IsUserPath, Saturate, ValueSum, HostSum, StorageSum, Written, Handles, Exhaust, Capped;
    NeedsAreUsed(b, s, p);
    var needs := Needs(b, s, p);
    assert AllMet(needs) <==> Met(needs[0]) && Met(needs[1]) && Met(needs[2]) && Met(needs[3]) && Met(needs[4]) && Met(needs[5]);
  }

  lemma {:induction false} ReportIsGuarded(b: Budget, r: Result)
    ensures var needs := ReportNeeds(b, r.message, r.provenance);
            && (AllMet(needs) ==> Guarded(b, r) == r)
            && (Short(needs, 0) ==> Guarded(b, r) == Complaint(needs[0], r.provenance))
            && (Short(needs, 1) ==> Guarded(b, r) == Complaint(needs[1], r.provenance))
  {
    hide Saturate, Exhaust, Complaint, Capped;
    CappedSaturates(ProvenanceSum(r.provenance));
    ComplaintIsExhaust(ReportNeeds(b, r.message, r.provenance)[0], r.provenance);
    ComplaintIsExhaust(ReportNeeds(b, r.message, r.provenance)[1], r.provenance);
  }

  // ----- published outcomes -----

  predicate IsValuePath(path: string) {
    path == "/std/meta/value_equals" || path == "/std/meta/value_not_equals" || path == "/std/meta/value_less" ||
    path == "/std/meta/value_less_equal" || path == "/std/meta/value_greater" || path == "/std/meta/value_greater_equal"
  }

  lemma {:induction false} ValuePaths(path: string)
    ensures ComparisonOf(path).Some? <==> IsValuePath(path)
  {
  }

  /** A result that says no. */
  predicate SaysNo(r: Result, kind: Kind, p: Provenance, message: string) {
    r.kind == kind && r.fault == Some(kind) && !r.value && r.provenance == p && r.message == message
  }

  lemma {:induction false} Kinds(outcome: string)
    ensures outcome in {"satisfied", "success"} <==> KindOf(outcome) == Success
    ensures outcome == "unsatisfied" <==> KindOf(outcome) == Unsatisfied
    ensures outcome == "denied_effect" <==> KindOf(outcome) == Denied
    ensures outcome == "budget_exhausted" <==> KindOf(outcome) == Exhausted
    ensures outcome == "cache_corrupt_or_version_mismatch" <==> KindOf(outcome) == CacheMismatch
    ensures outcome == "internal_compiler_error" <==> KindOf(outcome) == Internal
  {
  }

  /** The outcomes that are reported whatever the report needs. */
  predicate IsTerse(outcome: string) {
    outcome == "denied_effect" || outcome == "budget_exhausted" || outcome == "cache_corrupt_or_version_mismatch"
  }

  lemma {:induction false} OutcomeIsReported(b: Budget, s: Subject, p: Provenance)
    requires !IsValuePath(p.predicatePath) && AllMet(Needs(b, s, p))
    ensures IsTerse(s.outcome) || AllMet(ReportNeeds(b, s.diagnostic, p)) ==> Direct(b, s, p) == OutcomeVerdict(s, p)
    ensures !IsTerse(s.outcome) ==> Direct(b, s, p) == Guarded(b, OutcomeVerdict(s, p))
  {
    hide KindOf, Needs, ReportNeeds, Precheck, ComparisonOf, Guarded, IsValuePath;
    NeedsAreChecked(b, s, p);
    ValuePaths(p.predicatePath);
    Kinds(s.outcome);
    ReportIsGuarded(b, OutcomeVerdict(s, p));
  }

  /** Where there is enough for it, a published outcome is answered with its diagnostic: the two
      texts of success with true, and each of the others with false and the kind it names. */
  lemma {:induction false} OutcomeDecides(b: Budget, s: Subject, p: Provenance)
    requires !IsValuePath(p.predicatePath) && AllMet(Needs(b, s, p))
    requires IsTerse(s.outcome) || AllMet(ReportNeeds(b, s.diagnostic, p))
    ensures var r := Direct(b, s, p);
            if s.outcome == "satisfied" || s.outcome == "success"
            then r == Result(Success, None, p, s.diagnostic, true)
            else if s.outcome == "unsatisfied" then SaysNo(r, Unsatisfied, p, s.diagnostic)
            else if s.outcome == "denied_effect" then SaysNo(r, Denied, p, s.diagnostic)
            else if s.outcome == "budget_exhausted" then SaysNo(r, Exhausted, p, s.diagnostic)
            else if s.outcome == "cache_corrupt_or_version_mismatch" then SaysNo(r, CacheMismatch, p, s.diagnostic)
            else if s.outcome == "internal_compiler_error" then SaysNo(r, Internal, p, s.diagnostic)
            else SaysNo(r, Invalid, p, s.diagnostic)
  {
    hide KindOf, Needs, ReportNeeds, Direct, IsValuePath, IsTerse;
    OutcomeIsReported(b, s, p);
    Kinds(s.outcome);
  }

  /** Every other verdict is told if there is enough for the report, and else the report's first
      need that is not met. */
  lemma {:induction false} ReportIsChecked(b: Budget, s: Subject, p: Provenance, k: nat)
    requires AllMet(Needs(b, s, p)) && (IsValuePath(p.predicatePath) || !IsTerse(s.outcome))
    ensures var needs := ReportNeeds(b, Verdict(s, p).message, p);
            && (AllMet(needs) ==> Direct(b, s, p) == Verdict(s, p))
            && (Short(needs, k) ==> Direct(b, s, p) == Complaint(needs[k], p))
  {
    hide KindOf, Needs, ReportNeeds, Direct, IsValuePath, IsTerse, Complaint, Guarded, AllMet, Short, Verdict;
    VerdictIsGuarded(b, s, p);
    ReportIsGuarded(b, Verdict(s, p));
    if Short(ReportNeeds(b, Verdict(s, p).message, p), k) {
      ShortIndex(b, Verdict(s, p).message, p, k);
    }
  }

  lemma {:induction false} VerdictIsGuarded(b: Budget, s: Subject, p: Provenance)
    requires AllMet(Needs(b, s, p)) && (IsValuePath(p.predicatePath) || !IsTerse(s.outcome))
    ensures Direct(b, s, p) == Guarded(b, Verdict(s, p)) && Verdict(s, p).provenance == p
  {
    hide KindOf, Needs, ReportNeeds, Precheck, IsValuePath, Guarded, AllMet, ComparisonOf, OperandFlaw, KernelVerdict, ArityMessage;
    NeedsAreChecked(b, s, p);
    ValuePaths(p.predicatePath);
    Kinds(s.outcome);
    match ComparisonOf(p.predicatePath)
    case Some(c) => VerdictKeepsProvenance(c, s, p);
    case None =>
  }

  lemma {:induction false} VerdictKeepsProvenance(c: Comparison, s: Subject, p: Provenance)
    ensures CompareVerdict(c, s, p).provenance == p
  {
    hide OperandFlaw, Parse, OpcodeOf, ArityMessage, CompareMessage, UNDERFLOW, NO_RESULT;
  }

  lemma {:induction false} ShortIndex(b: Budget, message: string, p: Provenance, k: nat)
    requires Short(ReportNeeds(b, message, p), k)
    ensures k == 0 || k == 1
  {
    hide ReportNeeds;
  }

  // ----- comparisons -----

  function SignOf(path: string): string {
    if path == "/std/meta/value_equals" then "=="
    else if path == "/std/meta/value_not_equals" then "!="
    else if path == "/std/meta/value_less" then "<"
    else if path == "/std/meta/value_less_equal" then "<="
    else if path == "/std/meta/value_greater" then ">"
    else ">="
  }

  /** The relation a sign stands for. */
  predicate Relates(sign: string, a: nat, b: nat) {
    if sign == "==" then a == b else if sign == "!=" then a != b else if sign == "<" then a < b
    else if sign == "<=" then a <= b else if sign == ">" then a > b else a >= b
  }

  lemma {:induction false} SignsAgree(path: string, a: u64, b: u64)
    requires IsValuePath(path)
    ensures ComparisonOf(path).Some? && Sign(ComparisonOf(path).value) == SignOf(path)
    ensures Holds(ComparisonOf(path).value, a, b) <==> Relates(SignOf(path), a, b)
  {
    hide Holds, Relates;
    PathsCompare();
    SignsRelate(ComparisonOf(path).value, a, b);
  }

  lemma {:induction false} SignsRelate(c: Comparison, a: u64, b: u64)
    ensures Holds(c, a, b) <==> Relates(Sign(c), a, b)
  {
  }

  /** A text is parsed as a number exactly if it spells one below 2^64, and then as that one. */
  lemma {:induction false} ParseIsExact(text: string, n: nat)
    ensures Parse(text) == Some(n) <==> n < 0x1_0000_0000_0000_0000 && Spells(text, n)
  {
    hide AllDigits, Spells, Value;
    SpellsExactly(text, n);
  }

  /** An operand the comparisons take. */
  ghost predicate IsNumber(o: Operand, n: nat) {
    o.kind == "literal_compile_time_argument" && n < 0x1_0000_0000_0000_0000 && Spells(o.text, n)
  }

  lemma {:induction false} NumberIsSound(path: string, o: Operand, n: nat)
    requires IsNumber(o, n)
    ensures OperandFlaw(path, o).None? && Parse(o.text) == Some(n)
  {
    hide Parse, Spells;
    ParseIsExact(o.text, n);
  }

  function FlawText(path: string, o: Operand): string {
    (if o.kind != "literal_compile_time_argument" then "non-constant value operand for requirement predicate "
     else "unsupported value operand for requirement predicate ") + path + ": " + o.text
  }

  lemma {:induction false} FlawReads(path: string, o: Operand)
    requires OperandFlaw(path, o).Some?
    ensures OperandFlaw(path, o).value == FlawText(path, o)
  {
    hide Parse;
  }

  lemma {:induction false} SoundIsNumber(path: string, o: Operand)
    requires OperandFlaw(path, o).None?
    ensures exists n: nat :: IsNumber(o, n)
  {
    hide Parse, Spells;
    ParseIsExact(o.text, Parse(o.text).value);
    assert IsNumber(o, Parse(o.text).value);
  }

  lemma {:induction false} FlawIsTold(path: string, o: Operand)
    requires forall n: nat :: !IsNumber(o, n)
    ensures OperandFlaw(path, o) == Some(FlawText(path, o))
  {
    hide OperandFlaw, FlawText, IsNumber;
    if OperandFlaw(path, o).Some? {
      FlawReads(path, o);
    } else {
      SoundIsNumber(path, o);
    }
  }

  /** Two numbers are compared as the path says, and the message shows the comparison. */
  lemma {:induction false} ComparisonIsShown(s: Subject, p: Provenance, a: nat, b: nat)
    requires IsValuePath(p.predicatePath) && |s.operands| == 2 && IsNumber(s.operands[0], a) && IsNumber(s.operands[1], b)
    ensures var sign := SignOf(p.predicatePath);
            var shown := Decimal(a) + " " + sign + " " + Decimal(b);
            if Relates(sign, a, b)
            then Verdict(s, p) == Result(Success, None, p, "value predicate satisfied: " + shown, true)
            else SaysNo(Verdict(s, p), Unsatisfied, p, "value predicate failed: " + shown)
  {
    hide IsNumber, IsValuePath, OperandFlaw, Parse, ComparisonOf, KernelVerdict, Decimal, Relates, SignOf, ArityMessage, Sign;
    NumbersFit(s.operands[0], a);
    NumbersFit(s.operands[1], b);
    NumberIsSound(p.predicatePath, s.operands[0], a);
    NumberIsSound(p.predicatePath, s.operands[1], b);
    SignsAgree(p.predicatePath, a, b);
    KernelShows(ComparisonOf(p.predicatePath).value, a, b, p);
  }

  lemma {:induction false} NumbersFit(o: Operand, n: nat)
    requires IsNumber(o, n)
    ensures n < TWO64
  {
    hide Spells;
  }

  lemma {:induction false} KernelShows(c: Comparison, a: u64, b: u64, p: Provenance)
    ensures var shown := Decimal(a) + " " + Sign(c) + " " + Decimal(b);
            if Holds(c, a, b)
            then KernelVerdict(c, a, b, p) == Result(Success, None, p, "value predicate satisfied: " + shown, true)
            else SaysNo(KernelVerdict(c, a, b, p), Unsatisfied, p, "value predicate failed: " + shown)
  {
    hide Decimal, Sign;
    KernelDecides(c, a, b, p);
    assert [a, b][..0] + [1] == [1] && [a, b][..0] + [0] == [0];
    var shown := Decimal(a) + " " + Sign(c) + " " + Decimal(b);
    ShownTogether("value predicate satisfied: ", Decimal(a), Sign(c), Decimal(b));
    ShownTogether("value predicate failed: ", Decimal(a), Sign(c), Decimal(b));
  }

  lemma {:induction false} ShownTogether(lead: string, a: string, sign: string, b: string)
    ensures lead + a + " " + sign + " " + b == lead + (a + " " + sign + " " + b)
  {
  }

  /** Any other operands are refused: for their number, or for the first that is no number. */
  lemma {:induction false} OddOperandsAreRefused(s: Subject, p: Provenance, k: nat)
    requires IsValuePath(p.predicatePath)
    ensures |s.operands| != 2 ==>
              SaysNo(Verdict(s, p), Invalid, p, "requirement predicate " + p.predicatePath + " expects two value operands")
    ensures (|s.operands| == 2 && k < 2 && (forall n: nat :: !IsNumber(s.operands[k], n)) &&
             forall j :: 0 <= j < k ==> exists n: nat :: IsNumber(s.operands[j], n)) ==>
              SaysNo(Verdict(s, p), Invalid, p, FlawText(p.predicatePath, s.operands[k]))
  {
    hide FlawText, IsNumber, IsValuePath, OperandFlaw, ComparisonOf, KernelVerdict;
    ValuePaths(p.predicatePath);
    if |s.operands| == 2 && k < 2 && (forall n: nat :: !IsNumber(s.operands[k], n)) &&
       forall j :: 0 <= j < k ==> exists n: nat :: IsNumber(s.operands[j], n)
    {
      FlawIsTold(p.predicatePath, s.operands[k]);
      if k == 1 {
        var n: nat :| IsNumber(s.operands[0], n);
        NumberIsSound(p.predicatePath, s.operands[0], n);
      }
    }
  }
}
