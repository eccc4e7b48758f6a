/** The evaluator with its cache, as a state machine over a sequence of calls. */
module EvaluationCache {
  import opened Ir
  import opened CompileTime
  import opened SortedTexts
  import opened CacheKey
  import opened CacheIdentity
  import opened Evaluation

  /** What surrounds the evaluator: a lookup of facts, a program, fingerprints of services, and
      the verdict on a fact's well-formedness. */
  datatype Host = Host(
    program: Option<Program>,
    find: (string, string, string) -> Option<Fact>,
    fingerprint: string -> Option<string>,
    flaw: (Option<Program>, Fact, string, string, string) -> Option<string>)

  datatype Request = Request(
    program: Option<Program>, fact: Option<Fact>, definitionPath: string, predicateName: string,
    sourceText: string, policy: string, reuse: bool, provenance: Provenance, budget: Budget)

  /** A request made of an evaluator with this host and this budget. */
  datatype Call = Call(host: Host, budget: Budget, request: Request)

  datatype Prepared = Rejected(result: Result) | Ready(context: Context, provenance: Provenance)

  function ActiveBudget(call: Call): Budget {
    if call.request.budget == DEFAULT_BUDGET then call.budget else call.request.budget
  }

  function OrAny(text: string): string { if text == "" then "<any>" else text }

  function MissingMessage(definitionPath: string, predicateName: string, sourceText: string): string {
    var name := if predicateName == "" then "<unknown>" else predicateName;
    "missing semantic-product requirementPredicateFacts fact: compile-time evaluation requires a published predicate fact for "
    + name + " (lookup: definition " + OrAny(definitionPath) + ", predicate " + name
    + (if sourceText == "" then "" else ", source_text \"" + sourceText + "\"") + ")"
  }

  function Imports(program: Option<Program>): seq<string> {
    match program case None => [] case Some(p) => Prefixed("source:", p.sourceImports) + Prefixed("import:", p.imports)
  }

  function PublishedSubjects(program: Option<Program>): seq<Subject> {
    match program case None => [] case Some(p) => Subjects(program, Published(p))
  }

  function Fingerprint(host: Host, effect: string): string {
    match host.fingerprint(effect) case None => "<unavailable>" case Some(text) => text
  }

  /** What is settled before the cache is consulted. */
  function Prepare(call: Call): Prepared {
    var q := call.request;
    var budget := ActiveBudget(call);
    var program := if q.program.Some? then q.program else call.host.program;
    var found := if q.fact.Some? then q.fact else call.host.find(q.definitionPath, q.predicateName, q.sourceText);
    match found
    case None =>
      Rejected(Guarded(budget, Fault(Internal, q.provenance, MissingMessage(q.definitionPath, q.predicateName, q.sourceText))))
    case Some(fact) =>
      match call.host.flaw(program, fact, q.definitionPath, q.predicateName, q.sourceText)
      case Some(message) => Rejected(Guarded(budget, Fault(Internal, q.provenance, message)))
      case None =>
        var s := SubjectOf(program, fact);
        Ready(Context(ContractVersion(program), PolicyText(q.policy), budget, Imports(program),
                      PublishedSubjects(program), s, e => Fingerprint(call.host, e)),
              ProvenanceOf(s, fact))
  }

  /** The answer of an evaluator that has no cache. */
  function Uncached(call: Call): Result {
    match Prepare(call)
    case Rejected(r) => r
    case Ready(c, p) => Direct(c.budget, c.subject, p)
  }

  // ----- the cache -----

  datatype Entry = Entry(digest: string, material: string, result: Result, contractVersion: u32, policy: string)

  datatype Cache = Cache(entries: map<string, Entry>, enabled: bool, hits: nat, misses: nat, stores: nat, mismatches: nat)

  function Empty(enabled: bool): Cache { Cache(map[], enabled, 0, 0, 0, 0) }

  const MISMATCH := "compile-time evaluation cache corrupt or version mismatch"

  /** Only an answer read off a published outcome is stored; a comparison of values is not, nor
      is a budget exhausted before it. */
  predicate IsStored(c: Context, p: Provenance) {
    Precheck(c.budget, c.subject, p).None? && ComparisonOf(p.predicatePath).None?
  }

  function EntryFor(digest: string -> string, c: Context, p: Provenance): Entry {
    Entry(digest(Material(c)), Material(c), Direct(c.budget, c.subject, p), c.contractVersion, c.policy)
  }

  predicate Matches(e: Entry, c: Context) {
    e.material == Material(c) && e.contractVersion == c.contractVersion && e.policy == c.policy
  }

  predicate UsesCache(cache: Cache, call: Call) { cache.enabled && call.request.reuse && Prepare(call).Ready? }

  datatype Reply = Reply(cache: Cache, result: Result)

  function Lookup(digest: string -> string, cache: Cache, c: Context, p: Provenance): Reply {
    var key := digest(Material(c));
    if key in cache.entries then
      if Matches(cache.entries[key], c) then Reply(cache.(hits := cache.hits + 1), cache.entries[key].result)
      else Reply(cache.(mismatches := cache.mismatches + 1), Fault(CacheMismatch, p, MISMATCH))
    else
      var missed := cache.(misses := cache.misses + 1);
      Reply(if IsStored(c, p)
            then missed.(entries := cache.entries[key := EntryFor(digest, c, p)], stores := cache.stores + 1)
            else missed,
            Direct(c.budget, c.subject, p))
  }

  /** One call. */
  function Step(digest: string -> string, cache: Cache, call: Call): Reply {
    if UsesCache(cache, call) then Lookup(digest, cache, Prepare(call).context, Prepare(call).provenance)
    else Reply(cache, Uncached(call))
  }

  /** The cache behind a sequence of calls that began with an empty one. */
  function After(digest: string -> string, enabled: bool, calls: seq<Call>): Cache {
    if calls == [] then Empty(enabled)
    else Step(digest, After(digest, enabled, calls[..|calls| - 1]), calls[|calls| - 1]).cache
  }

  /** The reply to call number `i`. */
  function ReplyTo(digest: string -> string, enabled: bool, calls: seq<Call>, i: nat): Result
    requires i < |calls|
  {
    Step(digest, After(digest, enabled, calls[..i]), calls[i]).result
  }

  // ----- an answer depends on no more than the key tells -----

  predicate ComesFrom(s: Subject, p: Provenance) {
    Blank(p) == Provenance(s.definitionPath, s.predicateName, "", s.sourceText, 0, 0, s.nodeId, s.handle)
  }

  lemma {:induction false} PreparedComesFrom(call: Call)
    requires Prepare(call).Ready?
    ensures ComesFrom(Prepare(call).context.subject, Prepare(call).provenance)
  {
    hide SubjectOf, PublishedSubjects, Imports, MissingMessage;
  }

  lemma {:induction false} EffectsDoNotMatter(b: Budget, s: Subject, t: Subject, p: Provenance)
    requires s.(effects := []) == t.(effects := [])
    ensures Direct(b, s, p) == Direct(b, t, p)
  {
    hide ValueSum, HandleSum, Saturate, ComparisonOf, Guarded, KindOf, IsUserPath, ExhaustMessage, OperandFlaw, KernelVerdict, ArityMessage;
    var plain := s.(effects := []);
    assert s.operands == plain.operands == t.operands;
    assert s.definitionPath == t.definitionPath && s.predicateName == t.predicateName && s.sourceText == t.sourceText;
    assert s.outcome == t.outcome && s.diagnostic == t.diagnostic;
  }

  /** Equal key material, equal answers but for the position. */
  lemma {:induction false} MaterialDecides(c: Context, p: Provenance, d: Context, q: Provenance)
    requires Material(c) == Material(d) && ComesFrom(c.subject, p) && ComesFrom(d.subject, q)
    ensures Forget(Direct(c.budget, c.subject, p)) == Forget(Direct(d.budget, d.subject, q))
    ensures c.contractVersion == d.contractVersion && c.policy == d.policy
  {
    hide Material, Direct, Elements, Gists;
    MaterialIsExact(c, d);
    var s, t := c.subject, d.subject;
    assert GistOf(s) == GistOf(t);
    assert s.(effects := []).definitionPath == s.definitionPath && t.(effects := []).definitionPath == t.definitionPath;
    assert Blank(p) == Blank(q);
    PositionsDoNotMatter(c.budget, s, p);
    PositionsDoNotMatter(d.budget, t, q);
    EffectsDoNotMatter(c.budget, s, t, Blank(p));
  }

  // ----- every entry stems from an earlier call -----

  predicate Makes(digest: string -> string, call: Call, e: Entry) {
    && call.request.reuse
    && Prepare(call).Ready?
    && e == EntryFor(digest, Prepare(call).context, Prepare(call).provenance)
  }

  predicate Stems(digest: string -> string, calls: seq<Call>, key: string, e: Entry) {
    e.digest == key && exists j :: 0 <= j < |calls| && Makes(digest, calls[j], e)
  }

  predicate Explained(digest: string -> string, calls: seq<Call>, cache: Cache) {
    forall key :: key in cache.entries ==> Stems(digest, calls, key, cache.entries[key])
  }

  lemma {:induction false} StemsLater(digest: string -> string, calls: seq<Call>, call: Call, key: string, e: Entry)
    requires Stems(digest, calls, key, e)
    ensures Stems(digest, calls + [call], key, e)
  {
    hide Makes;
    var j :| 0 <= j < |calls| && Makes(digest, calls[j], e);
    assert (calls + [call])[j] == calls[j];
  }

  lemma {:induction false} StemsNow(digest: string -> string, calls: seq<Call>, call: Call, e: Entry)
    requires Makes(digest, call, e)
    ensures Stems(digest, calls + [call], e.digest, e)
  {
    hide Makes;
    assert (calls + [call])[|calls|] == call;
  }

  lemma {:induction false} StepExplained(digest: string -> string, calls: seq<Call>, cache: Cache, call: Call)
    requires Explained(digest, calls, cache)
    ensures Explained(digest, calls + [call], Step(digest, cache, call).cache)
  {
    hide Stems, Prepare, Direct, Material, IsStored, Matches;
    var after := Step(digest, cache, call).cache;
    forall key | key in after.entries
      ensures Stems(digest, calls + [call], key, after.entries[key])
    {
      if key in cache.entries && after.entries[key] == cache.entries[key] {
        StemsLater(digest, calls, call, key, cache.entries[key]);
      } else {
        var made := Prepare(call);
        StemsNow(digest, calls, call, EntryFor(digest, made.context, made.provenance));
      }
    }
  }

  lemma {:induction false} AfterExplained(digest: string -> string, enabled: bool, calls: seq<Call>)
    ensures Explained(digest, calls, After(digest, enabled, calls)) && After(digest, enabled, calls).enabled == enabled
    decreases |calls|
  {
    hide Step, Stems;
    if calls != [] {
      var n := |calls| - 1;
      AfterExplained(digest, enabled, calls[..n]);
      StepExplained(digest, calls[..n], After(digest, enabled, calls[..n]), calls[n]);
      StepKeepsEnabled(digest, After(digest, enabled, calls[..n]), calls[n]);
      assert calls[..n] + [calls[n]] == calls;
    }
  }

  lemma {:induction false} StepKeepsEnabled(digest: string -> string, cache: Cache, call: Call)
    ensures Step(digest, cache, call).cache.enabled == cache.enabled
  {
    hide Prepare, Material, Direct, Matches, IsStored;
  }

  // ----- transparency -----

  /** Two cached calls whose different key materials have the same digest. */
  predicate Collide(digest: string -> string, a: Call, b: Call) {
    && a.request.reuse && b.request.reuse && Prepare(a).Ready? && Prepare(b).Ready?
    && Material(Prepare(a).context) != Material(Prepare(b).context)
    && digest(Material(Prepare(a).context)) == digest(Material(Prepare(b).context))
  }

  predicate Agrees(r: Result, call: Call) { Forget(r) == Forget(Uncached(call)) }

  predicate IsMismatch(r: Result, call: Call) {
    Prepare(call).Ready? && r == Fault(CacheMismatch, Prepare(call).provenance, MISMATCH)
  }

  /** Two cached calls of the same key material. */
  predicate Shares(a: Call, b: Call) {
    && a.request.reuse && b.request.reuse && Prepare(a).Ready? && Prepare(b).Ready?
    && Material(Prepare(a).context) == Material(Prepare(b).context)
  }

  /** A found entry either holds the uncached answer to a call of the same material, or proves a
      collision. */
  lemma {:induction false} FoundEntry(digest: string -> string, maker: Call, call: Call, e: Entry)
    requires Makes(digest, maker, e) && Prepare(call).Ready? && call.request.reuse
    requires e.digest == digest(Material(Prepare(call).context))
    ensures Matches(e, Prepare(call).context) ==>
              Shares(maker, call) && e.result == Uncached(maker) && Agrees(e.result, call)
    ensures !Matches(e, Prepare(call).context) ==> Collide(digest, maker, call)
  {
    hide Prepare, Material, Direct, Forget, ComesFrom;
    PreparedComesFrom(maker);
    PreparedComesFrom(call);
    var a, b := Prepare(maker), Prepare(call);
    if Material(a.context) == Material(b.context) {
      MaterialDecides(a.context, a.provenance, b.context, b.provenance);
    }
  }

  /** What a reply may be: the uncached answer; or, word for word, the uncached answer to an
      earlier call of the same material; or the mismatch fault, behind an earlier call of another
      material with the same digest. */
  ghost predicate IsReply(digest: string -> string, calls: seq<Call>, call: Call, r: Result) {
    || r == Uncached(call)
    || (exists j :: 0 <= j < |calls| && Shares(calls[j], call) && r == Uncached(calls[j]))
    || (IsMismatch(r, call) && exists j :: 0 <= j < |calls| && Collide(digest, calls[j], call))
  }

  lemma {:induction false} StepIsTransparent(digest: string -> string, calls: seq<Call>, cache: Cache, call: Call)
    requires Explained(digest, calls, cache)
    ensures var r := Step(digest, cache, call).result;
            IsReply(digest, calls, call, r) && (Agrees(r, call) || IsMismatch(r, call))
  {
    hide Prepare, Material, Direct, Forget, Matches, Makes, Collide, Shares;
    if UsesCache(cache, call) {
      var key := digest(Material(Prepare(call).context));
      if key in cache.entries {
        var e := cache.entries[key];
        assert Stems(digest, calls, key, e);
        var j :| 0 <= j < |calls| && Makes(digest, calls[j], e);
        FoundEntry(digest, calls[j], call, e);
      }
    }
  }

  /** From an empty cache, over every sequence of calls and for every digest function, each
      reply is the uncached answer in all but source line and column, and these are those of the
      call itself or of an earlier one of the same material. The one exception is the mismatch
      fault, and that needs an earlier call whose different material has the same digest. */
  lemma {:induction false} CacheIsTransparent(digest: string -> string, enabled: bool, calls: seq<Call>, i: nat)
    requires i < |calls|
    ensures var r := ReplyTo(digest, enabled, calls, i);
            IsReply(digest, calls[..i], calls[i], r) && (Agrees(r, calls[i]) || IsMismatch(r, calls[i]))
  {
    hide Step, Explained, Agrees, IsMismatch, IsReply;
    AfterExplained(digest, enabled, calls[..i]);
    StepIsTransparent(digest, calls[..i], After(digest, enabled, calls[..i]), calls[i]);
  }

  // ----- the counters -----

  function Lookups(enabled: bool, calls: seq<Call>): nat {
    if calls == [] then 0
    else Lookups(enabled, calls[..|calls| - 1]) +
         (if enabled && calls[|calls| - 1].request.reuse && Prepare(calls[|calls| - 1]).Ready? then 1 else 0)
  }

  /** Every consultation of the cache is a hit, a miss or a mismatch; every entry was stored once. */
  lemma {:induction false} CountersBalance(digest: string -> string, enabled: bool, calls: seq<Call>)
    ensures var c := After(digest, enabled, calls);
            c.enabled == enabled && c.hits + c.misses + c.mismatches == Lookups(enabled, calls)
            && c.stores == |c.entries| && c.stores <= c.misses
    decreases |calls|
  {
    hide Prepare, Material, Direct, Matches, IsStored;
    if calls != [] {
      CountersBalance(digest, enabled, calls[..|calls| - 1]);
    }
  }

  /** Once stored, an answer is found again, with its own position, by the same call. */
  lemma {:induction false} RepetitionHits(digest: string -> string, cache: Cache, call: Call)
    requires UsesCache(cache, call) && digest(Material(Prepare(call).context)) !in cache.entries
    requires IsStored(Prepare(call).context, Prepare(call).provenance)
    ensures var first := Step(digest, cache, call); var second := Step(digest, first.cache, call);
            second.result == first.result && second.cache == first.cache.(hits := first.cache.hits + 1)
  {
    hide Prepare, Material, Direct, IsStored;
  }
}
