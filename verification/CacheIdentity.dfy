/** The whole key material, and what it identifies. */
module CacheIdentity {
  import opened Ir
  import opened CompileTime
  import opened Decimals
  import opened SortedTexts
  import opened CacheKey

  const DEFAULT_POLICY := "primestruct-ct-evaluator-v1"

  function PolicyText(policy: string): string { if policy == "" then DEFAULT_POLICY else policy }

  /** Everything the key material is made from. */
  datatype Context = Context(
    contractVersion: u32, policy: string, budget: Budget, imports: seq<string>,
    facts: seq<Subject>, subject: Subject, services: string -> string)

  function VersionFields(contractVersion: u32, policy: string): seq<Field> {
    [Field(Key("cache", "materialVersion"), "primestruct-ct-cache-key-v1"),
     Field(Key("language", "version"), "primestruct-language-v1"),
     Field(Key("semanticProduct", "contractVersion"), Decimal(contractVersion)),
     Field(Key("evaluator", "policyVersion"), policy)]
  }

  function BudgetFields(b: Budget): seq<Field> {
    [Field(Key("budget", "maxPreparationSteps"), Decimal(b.preparationSteps)),
     Field(Key("budget", "maxSteps"), Decimal(b.steps)),
     Field(Key("budget", "maxFrames"), Decimal(b.frames)),
     Field(Key("budget", "maxUserPredicateCalls"), Decimal(b.userCalls)),
     Field(Key("budget", "maxValueBytes"), Decimal(b.valueBytes)),
     Field(Key("budget", "maxStorageBytes"), Decimal(b.storageBytes)),
     Field(Key("budget", "maxHostBytes"), Decimal(b.hostBytes)),
     Field(Key("budget", "maxDiagnosticBytes"), Decimal(b.diagnosticBytes)),
     Field(Key("budget", "maxProvenanceBytes"), Decimal(b.provenanceBytes))]
  }

  const IMPORT := "visibleImport"
  const FACT := "semanticRequirementFact"
  const REQUEST := "request"
  const EFFECT := "activeCompileTimeEffect"
  const SERVICE := "hostServiceFingerprint."

  function FactMaterials(facts: seq<Subject>): seq<string> {
    if facts == [] then [] else [FactMaterial("fact", facts[0])] + FactMaterials(facts[1..])
  }

  function ImportsOnward(c: Context): seq<Field> { Run(IMPORT, SortUnique(c.imports)) + FactsOnward(c) }

  function FactsOnward(c: Context): seq<Field> {
    Run(FACT, Sort(FactMaterials(c.facts))) + SubjectFields(REQUEST, c.subject)
  }

  function HeadFields(c: Context): seq<Field> {
    VersionFields(c.contractVersion, c.policy) + (BudgetFields(c.budget) + ImportsOnward(c))
  }

  function ServiceFields(effect: string, fingerprint: string): string {
    Write(Field(EFFECT, effect)) + Write(Field(SERVICE + effect, fingerprint))
  }

  function ServiceText(effects: seq<string>, services: string -> string): string {
    if effects == [] then "" else ServiceFields(effects[0], services(effects[0])) + ServiceText(effects[1..], services)
  }

  function Material(c: Context): string {
    WriteAll(HeadFields(c)) + ServiceText(SortUnique(c.subject.effects), c.services)
  }

  /** What key material stands for: versions, policy, budget, the set of imports, the bag of
      published facts, the requested predicate, and a fingerprint for each of its effects. */
  datatype Identity = Identity(
    contractVersion: u32, policy: string, budget: Budget, imports: set<string>,
    facts: multiset<Gist>, request: Gist, services: map<string, string>)

  function Gists(facts: seq<Subject>): seq<Gist> {
    if facts == [] then [] else [GistOf(facts[0])] + Gists(facts[1..])
  }

  function IdentityOf(c: Context): Identity {
    Identity(c.contractVersion, c.policy, c.budget, Elements(c.imports), multiset(Gists(c.facts)),
             GistOf(c.subject), map e | e in Elements(c.subject.effects) :: c.services(e))
  }

  // ----- every key is plain -----

  lemma {:induction false} BudgetIsPlain(b: Budget)
    requires Plain("budget")
    ensures AllPlain(BudgetFields(b))
  {
    hide Decimal, Key, Plain;
    KeyIsPlain("budget", "maxPreparationSteps");
    KeyIsPlain("budget", "maxSteps");
    KeyIsPlain("budget", "maxFrames");
    KeyIsPlain("budget", "maxUserPredicateCalls");
    KeyIsPlain("budget", "maxValueBytes");
    KeyIsPlain("budget", "maxStorageBytes");
    KeyIsPlain("budget", "maxHostBytes");
    KeyIsPlain("budget", "maxDiagnosticBytes");
    KeyIsPlain("budget", "maxProvenanceBytes");
  }

  lemma {:induction false} VersionIsPlain(contractVersion: u32, policy: string)
    requires Plain("cache") && Plain("language") && Plain("semanticProduct") && Plain("evaluator")
    ensures AllPlain(VersionFields(contractVersion, policy))
  {
    hide Decimal, Key, Plain;
    KeyIsPlain("cache", "materialVersion");
    KeyIsPlain("language", "version");
    KeyIsPlain("semanticProduct", "contractVersion");
    KeyIsPlain("evaluator", "policyVersion");
  }

  lemma {:induction false} FixedIsPlain(c: Context)
    ensures AllPlain(VersionFields(c.contractVersion, c.policy)) && AllPlain(BudgetFields(c.budget))
  {
    hide AllPlain, VersionFields, BudgetFields;
    BudgetIsPlain(c.budget);
    VersionIsPlain(c.contractVersion, c.policy);
  }

  lemma {:induction false} ListKeysArePlain()
    ensures Plain(IMPORT) && Plain(FACT) && Plain(REQUEST)
  {
  }

  lemma {:induction false} HeadIsPlain(c: Context)
    ensures AllPlain(HeadFields(c))
  {
    hide VersionFields, BudgetFields, Run, SubjectFields, AllPlain, Plain, SortUnique, Sort, FactMaterials;
    ListKeysArePlain();
    FixedIsPlain(c);
    RunIsPlain(IMPORT, SortUnique(c.imports));
    RunIsPlain(FACT, Sort(FactMaterials(c.facts)));
    SubjectIsPlain(REQUEST, c.subject);
    PlainConcat(Run(FACT, Sort(FactMaterials(c.facts))), SubjectFields(REQUEST, c.subject));
    PlainConcat(Run(IMPORT, SortUnique(c.imports)), FactsOnward(c));
    PlainConcat(BudgetFields(c.budget), ImportsOnward(c));
    PlainConcat(VersionFields(c.contractVersion, c.policy), BudgetFields(c.budget) + ImportsOnward(c));
  }

  // ----- the services -----

  lemma {:induction false} ServicesEnd(effects: seq<string>, services: string -> string)
    ensures Ends(ServiceText(effects, services))
  {
    hide Decimal;
    if effects != [] {
      assert EFFECT[0] == 'a';
      assert ServiceFields(effects[0], services(effects[0]))[0] == 'a';
    }
  }

  lemma {:induction false} ServiceFieldsCancel(effect: string, a: string, b: string, t: string, u: string)
    requires ServiceFields(effect, a) + t == ServiceFields(effect, b) + u
    ensures a == b && t == u
  {
    hide Write;
    var head := Write(Field(EFFECT, effect));
    var f, g := Field(SERVICE + effect, a), Field(SERVICE + effect, b);
    assert ServiceFields(effect, a) + t == head + (Write(f) + t);
    assert ServiceFields(effect, b) + u == head + (Write(g) + u);
    SplitSame(head, head, Write(f) + t, Write(g) + u);
    FieldCancels(f, g, t, u);
  }

  lemma {:induction false} ServicesTell(effects: seq<string>, f: string -> string, g: string -> string)
    ensures ServiceText(effects, f) == ServiceText(effects, g) <==> forall e :: e in effects ==> f(e) == g(e)
    decreases |effects|
  {
    hide ServiceFields;
    if effects != [] {
      var e := effects[0];
      ServicesTell(effects[1..], f, g);
      assert effects == [e] + effects[1..];
      if ServiceText(effects, f) == ServiceText(effects, g) {
        ServiceFieldsCancel(e, f(e), g(e), ServiceText(effects[1..], f), ServiceText(effects[1..], g));
      }
    }
  }

  lemma {:induction false} ServiceMapsTell(effects: set<string>, f: string -> string, g: string -> string)
    ensures (map e | e in effects :: f(e)) == (map e | e in effects :: g(e)) <==> forall e :: e in effects ==> f(e) == g(e)
  {
    var m, n := map e | e in effects :: f(e), map e | e in effects :: g(e);
    if m == n {
      forall e | e in effects
        ensures f(e) == g(e)
      {
        assert m[e] == n[e];
      }
    }
  }

  // ----- the published facts -----

  lemma {:induction false} FactCount(facts: seq<Subject>, s: Subject)
    ensures multiset(FactMaterials(facts))[FactMaterial("fact", s)] == multiset(Gists(facts))[GistOf(s)]
  {
    hide FactMaterial, GistOf;
    if facts != [] {
      FactCount(facts[1..], s);
      PlainFact();
      FactMaterialIsExact("fact", facts[0], s);
      assert multiset(FactMaterials(facts)) == multiset{FactMaterial("fact", facts[0])} + multiset(FactMaterials(facts[1..]));
      assert multiset(Gists(facts)) == multiset{GistOf(facts[0])} + multiset(Gists(facts[1..]));
    }
  }

  lemma {:induction false} PlainFact()
    ensures Plain("fact")
  {
  }

  lemma {:induction false} MaterialHasSource(facts: seq<Subject>, m: string) returns (s: Subject)
    requires m in FactMaterials(facts)
    ensures FactMaterial("fact", s) == m
  {
    hide FactMaterial;
    if m == FactMaterial("fact", facts[0]) {
      s := facts[0];
    } else {
      s := MaterialHasSource(facts[1..], m);
    }
  }

  lemma {:induction false} GistHasSource(facts: seq<Subject>, g: Gist) returns (s: Subject)
    requires g in Gists(facts)
    ensures GistOf(s) == g
  {
    hide GistOf;
    if g == GistOf(facts[0]) {
      s := facts[0];
    } else {
      s := GistHasSource(facts[1..], g);
    }
  }

  lemma {:induction false} FactsTell(v: seq<Subject>, w: seq<Subject>)
    ensures multiset(FactMaterials(v)) == multiset(FactMaterials(w)) <==> multiset(Gists(v)) == multiset(Gists(w))
  {
    hide FactMaterials, Gists, GistOf, FactMaterial;
    if multiset(FactMaterials(v)) == multiset(FactMaterials(w)) {
      forall g: Gist
        ensures multiset(Gists(v))[g] == multiset(Gists(w))[g]
      {
        if g in Gists(v) || g in Gists(w) {
          var s := GistHasSource(if g in Gists(v) then v else w, g);
          FactCount(v, s);
          FactCount(w, s);
        } else {
          assert g !in multiset(Gists(v)) && g !in multiset(Gists(w));
        }
      }
    }
    if multiset(Gists(v)) == multiset(Gists(w)) {
      forall m: string
        ensures multiset(FactMaterials(v))[m] == multiset(FactMaterials(w))[m]
      {
        if m in FactMaterials(v) || m in FactMaterials(w) {
          var s := MaterialHasSource(if m in FactMaterials(v) then v else w, m);
          FactCount(v, s);
          FactCount(w, s);
        } else {
          assert m !in multiset(FactMaterials(v)) && m !in multiset(FactMaterials(w));
        }
      }
    }
  }

  // ----- the theorem -----

  lemma {:induction false} VersionFieldsTell(c: Context, d: Context)
    ensures |VersionFields(c.contractVersion, c.policy)| == |VersionFields(d.contractVersion, d.policy)|
    ensures VersionFields(c.contractVersion, c.policy) == VersionFields(d.contractVersion, d.policy)
            <==> c.contractVersion == d.contractVersion && c.policy == d.policy
  {
    hide Decimal, Key;
    var f, g := VersionFields(c.contractVersion, c.policy), VersionFields(d.contractVersion, d.policy);
    if f == g {
      assert f[2].value == g[2].value && f[3].value == g[3].value;
      DecimalDiffers(c.contractVersion, d.contractVersion);
    }
  }

  lemma {:induction false} BudgetFieldsTell(a: Budget, b: Budget)
    ensures |BudgetFields(a)| == |BudgetFields(b)|
    ensures BudgetFields(a) == BudgetFields(b) <==> a == b
  {
    hide Decimal, Key;
    var f, g := BudgetFields(a), BudgetFields(b);
    if f == g {
      assert f[0].value == g[0].value && f[1].value == g[1].value && f[2].value == g[2].value;
      assert f[3].value == g[3].value && f[4].value == g[4].value && f[5].value == g[5].value;
      assert f[6].value == g[6].value && f[7].value == g[7].value && f[8].value == g[8].value;
      DecimalDiffers(a.preparationSteps, b.preparationSteps);
      DecimalDiffers(a.steps, b.steps);
      DecimalDiffers(a.frames, b.frames);
      DecimalDiffers(a.userCalls, b.userCalls);
      DecimalDiffers(a.valueBytes, b.valueBytes);
      DecimalDiffers(a.storageBytes, b.storageBytes);
      DecimalDiffers(a.hostBytes, b.hostBytes);
      DecimalDiffers(a.diagnosticBytes, b.diagnosticBytes);
      DecimalDiffers(a.provenanceBytes, b.provenanceBytes);
    }
  }

  lemma {:induction false} RequestStops(c: Context)
    ensures Stops(FACT, SubjectFields(REQUEST, c.subject)) && Stops(IMPORT, FactsOnward(c))
  {
    hide Decimal, OperandFields, SortUnique, Sort, FactMaterials;
    assert FACT[0] == 's' && IMPORT[0] == 'v' && REQUEST[0] == 'r';
    assert SubjectFields(REQUEST, c.subject)[0].key[0] == 'r';
    assert FactsOnward(c)[0] == if Sort(FactMaterials(c.facts)) == [] then SubjectFields(REQUEST, c.subject)[0] else Run(FACT, Sort(FactMaterials(c.facts)))[0];
  }

  lemma {:induction false} FactsOnwardTell(c: Context, d: Context)
    requires FactsOnward(c) == FactsOnward(d)
    ensures multiset(Gists(c.facts)) == multiset(Gists(d.facts)) && GistOf(c.subject) == GistOf(d.subject)
  {
    hide SubjectFields, Run, Sort, GistOf, Gists, FactMaterials, Stops;
    RequestStops(c);
    RequestStops(d);
    RunCancels(FACT, Sort(FactMaterials(c.facts)), Sort(FactMaterials(d.facts)),
               SubjectFields(REQUEST, c.subject), SubjectFields(REQUEST, d.subject));
    SubjectFieldsTell(REQUEST, c.subject, d.subject);
    SortForgetsOrder(FactMaterials(c.facts), FactMaterials(d.facts));
    FactsTell(c.facts, d.facts);
  }

  lemma {:induction false} HeadTells(c: Context, d: Context)
    requires HeadFields(c) == HeadFields(d)
    ensures IdentityOf(c).(services := map[]) == IdentityOf(d).(services := map[])
  {
    hide VersionFields, BudgetFields, Run, SortUnique, FactsOnward, GistOf, Gists, Elements, Stops;
    VersionFieldsTell(c, d);
    SplitSame(VersionFields(c.contractVersion, c.policy), VersionFields(d.contractVersion, d.policy),
              BudgetFields(c.budget) + ImportsOnward(c), BudgetFields(d.budget) + ImportsOnward(d));
    BudgetFieldsTell(c.budget, d.budget);
    SplitSame(BudgetFields(c.budget), BudgetFields(d.budget), ImportsOnward(c), ImportsOnward(d));
    RequestStops(c);
    RequestStops(d);
    RunCancels(IMPORT, SortUnique(c.imports), SortUnique(d.imports), FactsOnward(c), FactsOnward(d));
    SortUniqueForgetsRepetition(c.imports, d.imports);
    FactsOnwardTell(c, d);
  }

  lemma {:induction false} TellsHead(c: Context, d: Context)
    requires IdentityOf(c).(services := map[]) == IdentityOf(d).(services := map[])
    ensures HeadFields(c) == HeadFields(d)
  {
    hide VersionFields, BudgetFields, Run, SortUnique, SubjectFields, FactMaterials, GistOf, Gists, Elements, Sort;
    SortUniqueForgetsRepetition(c.imports, d.imports);
    FactsTell(c.facts, d.facts);
    SortForgetsOrder(FactMaterials(c.facts), FactMaterials(d.facts));
    GistTellsFields(REQUEST, c.subject, d.subject);
  }

  lemma {:induction false} SameEffects(s: Subject, t: Subject)
    requires GistOf(s) == GistOf(t)
    ensures Elements(s.effects) == Elements(t.effects) && SortUnique(s.effects) == SortUnique(t.effects)
    ensures forall e :: e in Elements(s.effects) <==> e in SortUnique(s.effects)
  {
    hide SortUnique;
    SortUniqueForgetsRepetition(s.effects, t.effects);
    SortUniqueElements(s.effects);
    forall e
      ensures e in Elements(s.effects) <==> e in SortUnique(s.effects)
    {
      assert e in Elements(SortUnique(s.effects)) <==> e in SortUnique(s.effects);
    }
  }

  lemma {:induction false} SameServices(c: Context, d: Context)
    requires GistOf(c.subject) == GistOf(d.subject)
    ensures IdentityOf(c).services == IdentityOf(d).services <==>
            ServiceText(SortUnique(c.subject.effects), c.services) == ServiceText(SortUnique(d.subject.effects), d.services)
  {
    hide SortUnique, Elements, ServiceText, GistOf;
    SameEffects(c.subject, d.subject);
    ServicesTell(SortUnique(c.subject.effects), c.services, d.services);
    ServiceMapsTell(Elements(c.subject.effects), c.services, d.services);
  }

  /** Key material is unambiguous, and no finer than it should be: two contexts have the same
      material exactly when they have the same identity, whatever texts they hold. */
  lemma {:induction false} MaterialIsExact(c: Context, d: Context)
    ensures Material(c) == Material(d) <==> IdentityOf(c) == IdentityOf(d)
  {
    hide HeadFields, ServiceText, SortUnique, WriteAll, AllPlain, Ends;
    if Material(c) == Material(d) {
      HeadIsPlain(c);
      HeadIsPlain(d);
      ServicesEnd(SortUnique(c.subject.effects), c.services);
      ServicesEnd(SortUnique(d.subject.effects), d.services);
      HeadCancels(HeadFields(c), HeadFields(d), ServiceText(SortUnique(c.subject.effects), c.services),
                  ServiceText(SortUnique(d.subject.effects), d.services));
      HeadTells(c, d);
      SameServices(c, d);
    }
    if IdentityOf(c) == IdentityOf(d) {
      TellsHead(c, d);
      SameServices(c, d);
    }
  }
}
