/** The evaluator as it runs: texts appended to, totals added up, a cache updated in place. */
module EvaluationMethod {
  import opened Ir
  import opened CompileTime
  import opened SortedTexts
  import opened CacheKey
  import opened CacheIdentity
  import opened Kernel
  import opened Evaluation
  import opened EvaluationCache

  // ----- byte totals -----

  lemma {:induction false} AddSaturates(n: nat, more: nat)
    ensures AddBytes(Saturate(n), more) == Saturate(n + more)
  {
  }

  /** `requirementValueBudgetBytes`. */
  method ValueBytes(operands: seq<Operand>) returns (bytes: nat)
    ensures bytes == Saturate(ValueSum(operands))
  {
    hide AddBytes, Saturate;
    bytes := 0;
    assert Saturate(0) == 0 by { SaturateZero(); }
    for i := 0 to |operands|
      invariant bytes == Saturate(ValueSum(operands[..i]))
    {
      ghost var sum := ValueSum(operands[..i]);
      assert operands[..i + 1][..i] == operands[..i];
      AddSaturates(sum, |operands[i].kind|);
      bytes := AddBytes(bytes, |operands[i].kind|);
      AddSaturates(sum + |operands[i].kind|, |operands[i].text|);
      bytes := AddBytes(bytes, |operands[i].text|);
    }
    assert operands[..|operands|] == operands;
  }

  lemma {:induction false} SaturateZero()
    ensures Saturate(0) == 0
  {
  }

  /** `requirementStorageBudgetBytes`. */
  method StorageBytes(s: Subject) returns (bytes: nat)
    ensures bytes == Saturate(StorageSum(s))
  {
    hide AddBytes, Saturate;
    bytes := ValueBytes(s.operands);
    ghost var base := ValueSum(s.operands) + |s.sourceText|;
    AddSaturates(ValueSum(s.operands), |s.sourceText|);
    bytes := AddBytes(bytes, |s.sourceText|);
    for i := 0 to |s.operands|
      invariant bytes == Saturate(base + HandleSum(s.operands[..i]))
    {
      ghost var sum := base + HandleSum(s.operands[..i]);
      assert s.operands[..i + 1][..i] == s.operands[..i];
      AddSaturates(sum, 4);
      bytes := AddBytes(bytes, 4);
      AddSaturates(sum + 4, 4);
      bytes := AddBytes(bytes, 4);
      AddSaturates(sum + 8, |s.operands[i].handle|);
      bytes := AddBytes(bytes, |s.operands[i].handle|);
    }
    assert s.operands[..|s.operands|] == s.operands;
  }

  /** `requirementHostBudgetBytes`. */
  method HostBytes(s: Subject) returns (bytes: nat)
    ensures bytes == Saturate(HostSum(s))
  {
    bytes := |s.definitionPath|;
    bytes := AddBytes(bytes, |s.predicateName|);
    bytes := AddBytes(bytes, |s.sourceText|);
    bytes := AddBytes(bytes, |s.outcome|);
    bytes := AddBytes(bytes, |s.diagnostic|);
  }

  /** `provenanceBudgetBytes`. */
  method ProvenanceBytes(p: Provenance) returns (bytes: nat)
    ensures bytes == Saturate(ProvenanceSum(p))
  {
    bytes := |p.definitionPath|;
    bytes := AddBytes(bytes, |p.predicatePath|);
    bytes := AddBytes(bytes, |p.sourcePath|);
    bytes := AddBytes(bytes, |p.sourceText|);
    bytes := AddBytes(bytes, 4);
    bytes := AddBytes(bytes, 4);
    bytes := AddBytes(bytes, 8);
    bytes := AddBytes(bytes, 8);
  }

  /** The six checks before an evaluation. */
  method CheckBudget(b: Budget, s: Subject, p: Provenance) returns (refusal: Option<Result>)
    ensures refusal == Precheck(b, s, p)
  {
    hide Exhaust, Saturate, ValueSum, StorageSum, HostSum, IsUserPath;
    if 1 > b.frames {
      return Some(Exhaust("frame", 1, b.frames, p));
    }
    var steps := |s.operands| + 1;
    if steps > b.steps {
      return Some(Exhaust("evaluator step", steps, b.steps, p));
    }
    var calls := if IsUserPath(p.predicatePath) then 1 else 0;
    if calls > b.userCalls {
      return Some(Exhaust("user predicate call", calls, b.userCalls, p));
    }
    var bytes := ValueBytes(s.operands);
    if bytes > b.valueBytes {
      return Some(Exhaust("value storage", bytes, b.valueBytes, p));
    }
    bytes := StorageBytes(s);
    if bytes > b.storageBytes {
      return Some(Exhaust("storage byte", bytes, b.storageBytes, p));
    }
    bytes := HostBytes(s);
    if bytes > b.hostBytes {
      return Some(Exhaust("host byte", bytes, b.hostBytes, p));
    }
    return None;
  }

  /** Reports a result, if diagnostic and provenance are within the budget. */
  method Report(b: Budget, result: Result) returns (r: Result)
    ensures r == Guarded(b, result)
  {
    hide Exhaust, Saturate, ProvenanceSum;
    if |result.message| > b.diagnosticBytes {
      return Exhaust("diagnostic payload", |result.message|, b.diagnosticBytes, result.provenance);
    }
    var bytes := ProvenanceBytes(result.provenance);
    if bytes > b.provenanceBytes {
      return Exhaust("provenance payload", bytes, b.provenanceBytes, result.provenance);
    }
    return result;
  }

  // ----- comparison of values -----

  /** `evaluateValuePredicateWithKernel`, before the checks on the size of the report. */
  method CompareValues(c: Comparison, s: Subject, p: Provenance) returns (r: Result)
    ensures r == CompareVerdict(c, s, p)
  {
    hide OperandFlaw, CompareMessage, ArityMessage, Parse, Compare;
    if |s.operands| != 2 {
      return Fault(Invalid, p, ArityMessage(p.predicatePath));
    }
    var stack: seq<u64> := [];
    var parsed: seq<u64> := [];
    for i := 0 to 2
      invariant |parsed| == i && stack == parsed
      invariant forall j :: 0 <= j < i ==>
                  OperandFlaw(p.predicatePath, s.operands[j]).None? && Parse(s.operands[j].text) == Some(parsed[j])
    {
      var flaw := OperandFlaw(p.predicatePath, s.operands[i]);
      if flaw.Some? {
        return Fault(Invalid, p, flaw.value);
      }
      SoundOperand(p.predicatePath, s.operands[i]);
      stack := stack + [Parse(s.operands[i].text).value];
      parsed := parsed + [Parse(s.operands[i].text).value];
    }
    assert stack == [parsed[0], parsed[1]];
    var effect := Compare(OpcodeOf(c), stack);
    if effect.Underflow? {
      return Fault(Invalid, p, UNDERFLOW);
    }
    stack := effect.stack;
    if stack == [] {
      return Fault(Internal, p, NO_RESULT);
    }
    var satisfied := stack[|stack| - 1] != 0;
    var message := CompareMessage(c, satisfied, parsed[0], parsed[1]);
    if satisfied {
      return Result(Success, None, p, message, true);
    }
    return Fault(Unsatisfied, p, message);
  }

  lemma {:induction false} SoundOperand(path: string, o: Operand)
    requires OperandFlaw(path, o).None?
    ensures Parse(o.text).Some?
  {
    hide Parse;
  }

  // ----- key material -----

  lemma {:induction false} WritePush(fields: seq<Field>, f: Field)
    ensures WriteAll(fields + [f]) == WriteAll(fields) + Write(f)
  {
    hide Write;
    WriteConcat(fields, [f]);
    assert WriteAll([f]) == Write(f) + "" == Write(f);
  }

  lemma {:induction false} WriteConcat(a: seq<Field>, b: seq<Field>)
    ensures WriteAll(a + b) == WriteAll(a) + WriteAll(b)
  {
    hide Write;
    if a == [] {
      assert a + b == b;
    } else {
      assert (a + b)[1..] == a[1..] + b;
      WriteConcat(a[1..], b);
      assert Write(a[0]) + (WriteAll(a[1..]) + WriteAll(b)) == Write(a[0]) + WriteAll(a[1..]) + WriteAll(b);
    }
  }

  lemma {:induction false} RunPush(key: string, values: seq<string>, v: string)
    ensures Run(key, values + [v]) == Run(key, values) + [Field(key, v)]
  {
    if values == [] {
      assert values + [v] == [v] && [v][1..] == [];
    } else {
      assert (values + [v])[1..] == values[1..] + [v];
      RunPush(key, values[1..], v);
    }
  }

  /** Appends one field for each value. */
  method AppendRun(material: string, key: string, values: seq<string>) returns (out: string)
    ensures out == material + WriteAll(Run(key, values))
  {
    hide Write, WriteAll, Run;
    out := material;
    ghost var done: string := "";
    assert WriteAll(Run(key, values[..0])) == "" by { NoRun(key); assert values[..0] == []; }
    for i := 0 to |values|
      invariant out == material + done && done == WriteAll(Run(key, values[..i]))
    {
      assert values[..i + 1] == values[..i] + [values[i]];
      RunPush(key, values[..i], values[i]);
      WritePush(Run(key, values[..i]), Field(key, values[i]));
      out := out + Write(Field(key, values[i]));
      done := done + Write(Field(key, values[i]));
    }
    assert values[..|values|] == values;
  }

  lemma {:induction false} NoRun(key: string)
    ensures WriteAll(Run(key, [])) == ""
  {
  }

  /** `requirementFactCacheMaterial`. */
  method RequirementFactMaterial(prefix: string, s: Subject) returns (material: string)
    ensures material == FactMaterial(prefix, s)
  {
    hide WriteAll, TextFields, Run, Key, SortUnique, OperandField;
    var texts := TextFields(prefix, s);
    var key := Key(prefix, "compileTimeEffect");
    var effects := SortUnique(s.effects);
    material := WriteAll(texts);
    material := AppendRun(material, key, effects);
    ghost var head := texts + Run(key, effects);
    WriteConcat(texts, Run(key, effects));
    assert head + OperandFields(prefix, s.operands[..0]) == head;
    for i := 0 to |s.operands|
      invariant material == WriteAll(head + OperandFields(prefix, s.operands[..i]))
    {
      var more := OperandField(prefix, s.operands[i], i);
      assert s.operands[..i + 1][..i] == s.operands[..i];
      assert head + (OperandFields(prefix, s.operands[..i]) + more) == head + OperandFields(prefix, s.operands[..i]) + more;
      WriteConcat(head + OperandFields(prefix, s.operands[..i]), more);
      material := material + WriteAll(more);
    }
    assert s.operands[..|s.operands|] == s.operands;
    assert texts + (Run(key, effects) + OperandFields(prefix, s.operands)) == head + OperandFields(prefix, s.operands);
  }

  lemma {:induction false} MaterialsPush(facts: seq<Subject>, s: Subject)
    ensures FactMaterials(facts + [s]) == FactMaterials(facts) + [FactMaterial("fact", s)]
  {
    hide FactMaterial;
    if facts == [] {
      assert facts + [s] == [s] && [s][1..] == [];
    } else {
      assert (facts + [s])[1..] == facts[1..] + [s];
      MaterialsPush(facts[1..], s);
    }
  }

  method MaterialsOf(facts: seq<Subject>) returns (materials: seq<string>)
    ensures materials == FactMaterials(facts)
  {
    hide FactMaterial;
    materials := [];
    for i := 0 to |facts|
      invariant materials == FactMaterials(facts[..i])
    {
      var material := RequirementFactMaterial("fact", facts[i]);
      assert facts[..i + 1] == facts[..i] + [facts[i]];
      MaterialsPush(facts[..i], facts[i]);
      materials := materials + [material];
    }
    assert facts[..|facts|] == facts;
  }

  lemma {:induction false} ServicePush(effects: seq<string>, e: string, services: string -> string)
    ensures ServiceText(effects + [e], services) == ServiceText(effects, services) + ServiceFields(e, services(e))
  {
    hide ServiceFields;
    if effects == [] {
      assert effects + [e] == [e] && [e][1..] == [];
    } else {
      assert (effects + [e])[1..] == effects[1..] + [e];
      ServicePush(effects[1..], e, services);
      assert ServiceFields(effects[0], services(effects[0])) + (ServiceText(effects[1..], services) + ServiceFields(e, services(e)))
          == ServiceFields(effects[0], services(effects[0])) + ServiceText(effects[1..], services) + ServiceFields(e, services(e));
    }
  }

  lemma {:induction false} HeadText(c: Context)
    ensures WriteAll(HeadFields(c)) ==
            WriteAll(VersionFields(c.contractVersion, c.policy)) + WriteAll(BudgetFields(c.budget))
            + WriteAll(Run(IMPORT, SortUnique(c.imports))) + WriteAll(Run(FACT, Sort(FactMaterials(c.facts))))
            + FactMaterial(REQUEST, c.subject)
  {
    hide WriteAll, VersionFields, BudgetFields, Run, SortUnique, Sort, FactMaterials, SubjectFields;
    WriteConcat(VersionFields(c.contractVersion, c.policy), BudgetFields(c.budget) + ImportsOnward(c));
    WriteConcat(BudgetFields(c.budget), ImportsOnward(c));
    WriteConcat(Run(IMPORT, SortUnique(c.imports)), FactsOnward(c));
    WriteConcat(Run(FACT, Sort(FactMaterials(c.facts))), SubjectFields(REQUEST, c.subject));
  }

  /** `buildCompileTimeEvaluationCacheKey`, but for the digest. */
  method BuildMaterial(c: Context) returns (material: string)
    ensures material == Material(c)
  {
    hide WriteAll, VersionFields, BudgetFields, Run, SortUnique, Sort, FactMaterials, FactMaterial, HeadFields, ServiceFields;
    material := WriteAll(VersionFields(c.contractVersion, c.policy));
    material := material + WriteAll(BudgetFields(c.budget));
    material := AppendRun(material, IMPORT, SortUnique(c.imports));
    var materials := MaterialsOf(c.facts);
    material := AppendRun(material, FACT, Sort(materials));
    var request := RequirementFactMaterial(REQUEST, c.subject);
    material := material + request;
    HeadText(c);
    ghost var head := material;
    var effects := SortUnique(c.subject.effects);
    for i := 0 to |effects|
      invariant material == head + ServiceText(effects[..i], c.services)
    {
      assert effects[..i + 1] == effects[..i] + [effects[i]];
      ServicePush(effects[..i], effects[i], c.services);
      material := material + ServiceFields(effects[i], c.services(effects[i]));
    }
    assert effects[..|effects|] == effects;
  }

  // ----- the cache -----

  class CompileTimeCache {
    var entries: map<string, Entry>
    var enabled: bool
    var hitCount: nat
    var missCount: nat
    var storeCount: nat
    var mismatchCount: nat
    const digest: string -> string

    function State(): Cache
      reads this
    {
      Cache(entries, enabled, hitCount, missCount, storeCount, mismatchCount)
    }

    constructor (digest: string -> string)
      ensures State() == Empty(true) && this.digest == digest
    {
      entries := map[];
      enabled := true;
      hitCount, missCount, storeCount, mismatchCount := 0, 0, 0, 0;
      this.digest := digest;
    }

    method Clear()
      modifies this
      ensures State() == Empty(old(enabled))
    {
      entries := map[];
      hitCount, missCount, storeCount, mismatchCount := 0, 0, 0, 0;
    }

    /** `evaluateRequirementPredicate`. */
    method EvaluateRequirementPredicate(call: Call) returns (r: Result)
      modifies this
      ensures Reply(State(), r) == Step(digest, old(State()), call)
    {
      hide Prepare, Material, Precheck, ComparisonOf, CompareVerdict, OutcomeVerdict, Guarded;
      var prepared := Prepare(call);
      if prepared.Rejected? {
        return prepared.result;
      }
      var c, p := prepared.context, prepared.provenance;
      var useCache := enabled && call.request.reuse;
      var material, key := "", "";
      if useCache {
        material := BuildMaterial(c);
        key := digest(material);
        if key in entries {
          var entry := entries[key];
          if entry.material != material || entry.contractVersion != c.contractVersion || entry.policy != c.policy {
            mismatchCount := mismatchCount + 1;
            return Fault(CacheMismatch, p, MISMATCH);
          }
          hitCount := hitCount + 1;
          return entry.result;
        }
        missCount := missCount + 1;
      }
      var refusal := CheckBudget(c.budget, c.subject, p);
      if refusal.Some? {
        return refusal.value;
      }
      var comparison := ComparisonOf(p.predicatePath);
      if comparison.Some? {
        r := CompareValues(comparison.value, c.subject, p);
        r := Report(c.budget, r);
        return;
      }
      r := OutcomeVerdict(c.subject, p);
      if !IsUnguarded(r.kind) {
        r := Report(c.budget, r);
      }
      if useCache {
        entries := entries[key := Entry(key, material, r, c.contractVersion, c.policy)];
        storeCount := storeCount + 1;
      }
    }
  }
}
