/** What a request is made of before it is answered, and what a call does to the cache. */
module EvaluationRequests {
  import opened Ir
  import opened CompileTime
  import opened Decimals
  import opened SortedTexts
  import opened CacheKey
  import opened CacheIdentity
  import opened Evaluation
  import opened EvaluationOutcomes
  import opened EvaluationCache

  // ----- what a request brings goes before what surrounds it -----

  /** Prepared alike, the fingerprints of services told one by one. */
  ghost predicate Alike(a: Prepared, b: Prepared) {
    if a.Rejected? || b.Rejected? then a == b
    else
      && a.provenance == b.provenance && a.context.(services := b.context.services) == b.context
      && forall e :: a.context.services(e) == b.context.services(e)
  }

  /** Nothing of a default budget is left. */
  predicate IsDefault(b: Budget) { b == Budget(10000, 10000, 128, 128, 0x10_0000, 0x10_0000, 0x10_0000, 0x1_0000, 0x1_0000) }

  /** A request with its own program, fact and budget is prepared by them, whatever program, facts
      and budget the evaluator has. */
  lemma {:induction false} RequestComesFirst(call: Call, other: Call)
    requires call.request == other.request && call.request.program.Some? && call.request.fact.Some?
    requires !IsDefault(call.request.budget)
    requires call.host.flaw == other.host.flaw && call.host.fingerprint == other.host.fingerprint
    ensures Alike(Prepare(call), Prepare(other))
  {
    hide SubjectOf, PublishedSubjects, Imports, PolicyText, ProvenanceOf;
  }

  /** The request with what the evaluator supplies where the request brings nothing. */
  function Supplied(call: Call): Request {
    var q := call.request;
    q.(program := if q.program.Some? then q.program else call.host.program,
       fact := if q.fact.Some? then q.fact else call.host.find(q.definitionPath, q.predicateName, q.sourceText),
       budget := if IsDefault(q.budget) then call.budget else q.budget)
  }

  /** Whatever a request lacks, the evaluator's program, fact and budget are taken for it. */
  lemma {:induction false} EvaluatorSupplies(call: Call)
    ensures Alike(Prepare(call), Prepare(call.(request := Supplied(call))))
  {
    hide SubjectOf, PublishedSubjects, Imports, PolicyText, ProvenanceOf, MissingMessage;
  }

  // ----- texts and their table -----

  /** The table is asked first; index 0, an index past the end and an empty entry leave the text. */
  lemma {:induction false} TableComesFirst(program: Option<Program>, name: Name, i: nat)
    ensures program.Some? && i < |program.value.strings| && program.value.strings[i] != "" ==>
              Resolve(program, name.(id := i + 1)) == program.value.strings[i]
    ensures program.Some? && i < |program.value.strings| && program.value.strings[i] == "" ==>
              Resolve(program, name.(id := i + 1)) == name.text
    ensures program.Some? && i >= |program.value.strings| ==> Resolve(program, name.(id := i + 1)) == name.text
    ensures program.None? ==> Resolve(program, name) == name.text
    ensures Resolve(program, name.(id := 0)) == name.text
  {
  }

  /** A name as a text alone. */
  function Plainly(text: string): Name { Name(text, 0) }

  lemma {:induction false} OperandsAreTaken(program: Option<Program>, operands: seq<NamedOperand>, i: nat)
    ensures |ResolveOperands(program, operands)| == |operands|
    ensures i < |operands| ==>
              ResolveOperands(program, operands)[i] ==
              Operand(Resolve(program, operands[i].kind), Resolve(program, operands[i].text), Resolve(program, operands[i].handle))
  {
    hide Resolve;
    if operands != [] {
      OperandsAreTaken(program, operands[1..], if i == 0 then 0 else i - 1);
    }
  }

  lemma {:induction false} EffectsAreTaken(program: Option<Program>, effects: seq<Name>, i: nat)
    ensures |ResolveEffects(program, effects)| == |effects|
    ensures i < |effects| ==> ResolveEffects(program, effects)[i] == Resolve(program, effects[i])
  {
    hide Resolve;
    if effects != [] {
      EffectsAreTaken(program, effects[1..], if i == 0 then 0 else i - 1);
    }
  }

  /** Every text of a fact comes from the name of the same part, and the position is cut off at 0. */
  lemma {:induction false} FactIsTaken(
    program: Option<Program>, fact: Fact, definition: string, kind: string, name: string, relation: string,
    source: string, outcome: string, diagnostic: string)
    requires fact.definitionPath == Plainly(definition) && fact.predicateKind == Plainly(kind)
    requires fact.predicateName == Plainly(name) && fact.relationOperator == Plainly(relation)
    requires fact.sourceText == Plainly(source) && fact.outcome == Plainly(outcome) && fact.diagnostic == Plainly(diagnostic)
    ensures var s := SubjectOf(program, fact);
            && s.definitionPath == definition && s.predicateKind == kind && s.predicateName == name
            && s.relationOperator == relation && s.sourceText == source && s.outcome == outcome && s.diagnostic == diagnostic
            && s.nodeId == fact.nodeId && s.handle == fact.handle
    ensures var p := ProvenanceOf(SubjectOf(program, fact), fact);
            && p.definitionPath == definition && p.predicatePath == name && p.sourcePath == "" && p.sourceText == source
            && (fact.line >= 0 ==> p.line == fact.line) && (fact.line <= 0 ==> p.line == 0)
            && (fact.column >= 0 ==> p.column == fact.column) && (fact.column <= 0 ==> p.column == 0)
            && p.nodeId == fact.nodeId && p.handle == fact.handle
  {
  }

  // ----- published facts -----

  /** Row after row. */
  function Flat(rows: seq<seq<nat>>): seq<nat> { if rows == [] then [] else rows[0] + Flat(rows[1..]) }

  lemma {:induction false} PickConcat(facts: seq<Fact>, a: seq<nat>, b: seq<nat>)
    ensures Pick(facts, a + b) == Pick(facts, a) + Pick(facts, b)
  {
    if a == [] {
      assert a + b == b;
    } else {
      assert (a + b)[1..] == a[1..] + b;
      PickConcat(facts, a[1..], b);
    }
  }

  /** The indices of modules are read row after row. */
  lemma {:induction false} ModulesAreFlattened(facts: seq<Fact>, modules: seq<seq<nat>>)
    ensures PickModules(facts, modules) == Pick(facts, Flat(modules))
  {
    hide Pick;
    if modules == [] {
      NothingPicked(facts);
    } else {
      ModulesAreFlattened(facts, modules[1..]);
      PickConcat(facts, modules[0], Flat(modules[1..]));
    }
  }

  lemma {:induction false} NothingPicked(facts: seq<Fact>)
    ensures Pick(facts, []) == []
  {
  }

  /** An index that there is adds its fact, and any other adds nothing. */
  lemma {:induction false} IndexIsPicked(facts: seq<Fact>, indices: seq<nat>, i: nat)
    ensures Pick(facts, indices + [i]) == Pick(facts, indices) + if i < |facts| then [facts[i]] else []
  {
    hide Pick;
    PickConcat(facts, indices, [i]);
    OnePicked(facts, i);
  }

  lemma {:induction false} OnePicked(facts: seq<Fact>, i: nat)
    ensures Pick(facts, [i]) == if i < |facts| then [facts[i]] else []
  {
    assert [i][1..] == [];
  }

  /** The published facts of a program with modules are those its modules name. */
  lemma {:induction false} ModulesPublish(program: Program, i: nat)
    ensures program.modules == [] ==> Published(program) == program.facts
    ensures program.modules != [] && Flat(program.modules) == [] ==> Published(program) == []
    ensures program.modules != [] && Flat(program.modules) == [i] && i < |program.facts| ==> Published(program) == [program.facts[i]]
    ensures forall f :: f in Published(program) ==> f in program.facts
  {
    hide Pick, PickModules;
    NothingPicked(program.facts);
    OnePicked(program.facts, i);
    ModulesAreFlattened(program.facts, program.modules);
    PickedAreFacts(program.facts, Flat(program.modules));
  }

  lemma {:induction false} PickedAreFacts(facts: seq<Fact>, indices: seq<nat>)
    ensures forall f :: f in Pick(facts, indices) ==> f in facts
  {
    if indices != [] {
      PickedAreFacts(facts, indices[1..]);
    }
  }

  lemma {:induction false} PrefixedHas(prefix: string, texts: seq<string>, t: string)
    ensures t in Prefixed(prefix, texts) <==> exists i :: 0 <= i < |texts| && t == prefix + texts[i]
  {
    if texts != [] {
      PrefixedHas(prefix, texts[1..], t);
      if t in Prefixed(prefix, texts[1..]) {
        var i :| 0 <= i < |texts[1..]| && t == prefix + texts[1..][i];
        assert t == prefix + texts[i + 1];
      }
      if i :| 0 <= i < |texts| && t == prefix + texts[i] {
        if i > 0 {
          assert t == prefix + texts[1..][i - 1];
        }
      }
    }
  }

  // ----- what is prepared -----

  /** Everything an answer and its key are made of. */
  lemma {:induction false} RequestIsPrepared(call: Call, fact: Fact, t: string)
    requires Supplied(call).fact == Some(fact)
    requires call.host.flaw(Supplied(call).program, fact, call.request.definitionPath, call.request.predicateName, call.request.sourceText).None?
    ensures Prepare(call).Ready?
    ensures var c := Prepare(call).context; var program := Supplied(call).program;
            && c.subject == SubjectOf(program, fact) && c.budget == Supplied(call).budget
            && (program.None? ==> c.contractVersion == 3 && c.imports == [] && c.facts == [])
            && (program.Some? ==> c.contractVersion == program.value.contractVersion)
            && (call.request.policy == "" ==> c.policy == "primestruct-ct-evaluator-v1")
            && (call.request.policy != "" ==> c.policy == call.request.policy)
    ensures var c := Prepare(call).context; var program := Supplied(call).program;
            program.Some? ==>
              && (t in c.imports <==>
                    || (exists i :: 0 <= i < |program.value.sourceImports| && t == "source:" + program.value.sourceImports[i])
                    || (exists i :: 0 <= i < |program.value.imports| && t == "import:" + program.value.imports[i]))
              && c.facts == Subjects(program, Published(program.value))
    ensures var c := Prepare(call).context;
            && (call.host.fingerprint(t).Some? ==> c.services(t) == call.host.fingerprint(t).value)
            && (call.host.fingerprint(t).None? ==> c.services(t) == "<unavailable>")
  {
    hide SubjectOf, Subjects, Published, Prefixed, ProvenanceOf;
    var program := Supplied(call).program;
    if program.Some? {
      PrefixedHas("source:", program.value.sourceImports, t);
      PrefixedHas("import:", program.value.imports, t);
    }
  }

  /** A request whose fact is missing or flawed is answered with the reason, at the position the
      request came with. */
  lemma {:induction false} FlawIsAnswered(call: Call)
    requires Supplied(call).fact.Some?
    requires var q := call.request;
             call.host.flaw(Supplied(call).program, Supplied(call).fact.value, q.definitionPath, q.predicateName, q.sourceText).Some?
    ensures var q := call.request;
            var flaw := call.host.flaw(Supplied(call).program, Supplied(call).fact.value, q.definitionPath, q.predicateName, q.sourceText).value;
            && (AllMet(ReportNeeds(Supplied(call).budget, flaw, q.provenance)) ==> SaysNo(Uncached(call), Internal, q.provenance, flaw))
            && Prepare(call).Rejected?
  {
    hide ReportNeeds, Guarded;
    var q := call.request;
    var flaw := call.host.flaw(Supplied(call).program, Supplied(call).fact.value, q.definitionPath, q.predicateName, q.sourceText).value;
    ReportIsGuarded(Supplied(call).budget, Fault(Internal, q.provenance, flaw));
  }

  lemma {:induction false} MissingFactIsAnswered(call: Call)
    requires Supplied(call).fact.None?
    ensures var message := MissingMessage(call.request.definitionPath, call.request.predicateName, call.request.sourceText);
            && (AllMet(ReportNeeds(Supplied(call).budget, message, call.request.provenance)) ==>
                  SaysNo(Uncached(call), Internal, call.request.provenance, message))
            && Prepare(call).Rejected?
  {
    hide ReportNeeds, Guarded, MissingMessage;
    var q := call.request;
    ReportIsGuarded(Supplied(call).budget,
                    Fault(Internal, q.provenance, MissingMessage(q.definitionPath, q.predicateName, q.sourceText)));
  }

  const MISSING := "missing semantic-product requirementPredicateFacts fact: compile-time evaluation requires a published predicate fact for "

  /** The message for a missing fact; what is not given is any, or unknown. */
  lemma {:induction false} MissingReads(d: string, p: string, s: string, place: string, name: string)
    requires if d == "" then place == "<any>" else place == d
    requires if p == "" then name == "<unknown>" else name == p
    ensures MissingMessage(d, p, s) ==
            MISSING + name + " (lookup: definition " + place + ", predicate " + name
            + (if s == "" then "" else ", source_text \"" + s + "\"") + ")"
  {
  }

  // ----- what a call does to the cache -----

  /** A lookup moves one counter. A hit answers with the entry; what was found but does not match
      is a mismatch; a miss stores its answer exactly if no need was short before the evaluation
      and the path is that of no value predicate. */
  lemma {:induction false} OneCounterMoves(digest: string -> string, cache: Cache, call: Call)
    requires cache.enabled && call.request.reuse && Prepare(call).Ready?
    ensures var after := Step(digest, cache, call).cache; var r := Step(digest, cache, call).result;
            var c := Prepare(call).context; var p := Prepare(call).provenance;
            var key := digest(Material(c));
            if key in cache.entries then
              var e := cache.entries[key];
              if e.material == Material(c) && e.contractVersion == c.contractVersion && e.policy == c.policy
              then after == cache.(hits := cache.hits + 1) && r == e.result
              else
                && after == cache.(mismatches := cache.mismatches + 1)
                && SaysNo(r, CacheMismatch, p, "compile-time evaluation cache corrupt or version mismatch")
            else
              var stored := AllMet(Needs(c.budget, c.subject, p)) && !IsValuePath(p.predicatePath);
              && r == Uncached(call)
              && after == cache.(misses := cache.misses + 1,
                                 stores := cache.stores + (if stored then 1 else 0),
                                 entries := if stored then cache.entries[key := Entry(key, Material(c), r, c.contractVersion, c.policy)]
                                            else cache.entries)
  {
    hide Prepare, Material, Direct, Needs, Precheck, ComparisonOf, IsValuePath;
    var c, p := Prepare(call).context, Prepare(call).provenance;
    NeedsAreChecked(c.budget, c.subject, p);
    ValuePaths(p.predicatePath);
  }

  /** Without the cache nothing of it changes. */
  lemma {:induction false} UnusedCacheStays(digest: string -> string, cache: Cache, call: Call)
    requires !cache.enabled || !call.request.reuse || Prepare(call).Rejected?
    ensures Step(digest, cache, call) == Reply(cache, Uncached(call))
    ensures After(digest, cache.enabled, []) == Cache(map[], cache.enabled, 0, 0, 0, 0)
  {
    hide Prepare, Material, Direct;
  }

  // ----- key texts -----

  /** The texts are alike up to a place where the first has the smaller character. */
  ghost predicate Precedes(a: string, b: string) {
    exists k :: 0 <= k < |a| && k < |b| && a[..k] == b[..k] && a[k] < b[k]
  }

  lemma {:induction false} SameHeadPrecedes(a: string, b: string)
    requires a != "" && b != "" && a[0] == b[0]
    ensures Precedes(a, b) <==> Precedes(a[1..], b[1..])
  {
    if Precedes(a[1..], b[1..]) {
      var k :| 0 <= k < |a[1..]| && k < |b[1..]| && a[1..][..k] == b[1..][..k] && a[1..][k] < b[1..][k];
      assert a[..k + 1] == [a[0]] + a[1..][..k] && b[..k + 1] == [b[0]] + b[1..][..k];
      assert a[k + 1] < b[k + 1];
    }
    if Precedes(a, b) {
      var k :| 0 <= k < |a| && k < |b| && a[..k] == b[..k] && a[k] < b[k];
      assert a[1..][..k - 1] == a[..k][1..] && b[1..][..k - 1] == b[..k][1..];
      assert a[1..][k - 1] < b[1..][k - 1];
    }
  }

  lemma {:induction false} OtherHeadPrecedes(a: string, b: string)
    requires a != "" && b != "" && a[0] != b[0]
    ensures Precedes(a, b) <==> a[0] < b[0]
  {
    if a[0] < b[0] {
      assert a[..0] == b[..0];
    }
    if Precedes(a, b) {
      var k :| 0 <= k < |a| && k < |b| && a[..k] == b[..k] && a[k] < b[k];
      assert forall j :: 0 <= j < k ==> a[j] == a[..k][j] == b[..k][j] == b[j];
    }
  }

  /** The order in which texts are sorted is that of the first character in which they differ. */
  lemma {:induction false} OrderIsLexicographic(a: string, b: string)
    ensures AtMost(a, b) <==> a <= b || Precedes(a, b)
  {
    hide Precedes;
    if a == "" || b == "" {
      NothingPrecedes(a, b);
    } else if a[0] == b[0] {
      OrderIsLexicographic(a[1..], b[1..]);
      SameHeadPrecedes(a, b);
      assert a == [a[0]] + a[1..] && b == [b[0]] + b[1..];
    } else {
      OtherHeadPrecedes(a, b);
    }
  }

  lemma {:induction false} NothingPrecedes(a: string, b: string)
    requires a == "" || b == ""
    ensures !Precedes(a, b)
  {
  }

  /** The fields of key material that do not repeat, by their names. */
  lemma {:induction false} VersionsAreNamed(contractVersion: u32, policy: string)
    ensures VersionFields(contractVersion, policy) ==
            [Field("cache.materialVersion", "primestruct-ct-cache-key-v1"), Field("language.version", "primestruct-language-v1"),
             Field("semanticProduct.contractVersion", Decimal(contractVersion)), Field("evaluator.policyVersion", policy)]
  {
    hide Decimal;
    assert Key("cache", "materialVersion") == "cache.materialVersion";
    assert Key("language", "version") == "language.version";
    assert Key("semanticProduct", "contractVersion") == "semanticProduct.contractVersion";
    assert Key("evaluator", "policyVersion") == "evaluator.policyVersion";
  }

  /** The limits of a budget, by the names behind the point. */
  lemma {:induction false} LimitsAreNamed(b: Budget, i: nat)
    requires i < 9
    ensures var names := ["maxPreparationSteps", "maxSteps", "maxFrames", "maxUserPredicateCalls", "maxValueBytes",
                          "maxStorageBytes", "maxHostBytes", "maxDiagnosticBytes", "maxProvenanceBytes"];
            var limits := [b.preparationSteps, b.steps, b.frames, b.userCalls, b.valueBytes,
                           b.storageBytes, b.hostBytes, b.diagnosticBytes, b.provenanceBytes];
            |BudgetFields(b)| == 9 && BudgetFields(b)[i] == Field("budget" + "." + names[i], Decimal(limits[i]))
  {
    hide Decimal;
  }

  lemma {:induction false} FieldIsWritten()
    ensures Write(Field("a", "bc")) == "a=2:bc\n"
    ensures WriteAll([Field("a", "bc"), Field("d", "")]) == "a=2:bc\nd=0:\n"
  {
    assert [Field("a", "bc"), Field("d", "")][1..] == [Field("d", "")] && [Field("d", "")][1..] == [];
  }
}
