/** Requirement predicates as the compile-time evaluator sees them. */
module CompileTime {
  import opened Ir

  /** Limits on one evaluation. */
  datatype Budget = Budget(
    preparationSteps: u64, steps: u64, frames: u64, userCalls: u64, valueBytes: u64,
    storageBytes: u64, hostBytes: u64, diagnosticBytes: u64, provenanceBytes: u64)

  const DEFAULT_BUDGET: Budget :=
    Budget(10000, 10000, 128, 128, 1048576, 1048576, 1048576, 65536, 65536)

  /** A text beside its index in the program's string table; index 0 is no index. */
  datatype Name = Name(text: string, id: nat)

  datatype NamedOperand = NamedOperand(kind: Name, text: Name, handle: Name, line: i32, column: i32)

  /** A published requirement predicate. */
  datatype Fact = Fact(
    definitionPath: Name, predicateKind: Name, predicateName: Name, relationOperator: Name,
    sourceText: Name, outcome: Name, diagnostic: Name, nodeId: u64, handle: u64,
    effects: seq<Name>, operands: seq<NamedOperand>, line: i32, column: i32)

  datatype Program = Program(
    contractVersion: u32, sourceImports: seq<string>, imports: seq<string>,
    strings: seq<string>, facts: seq<Fact>, modules: seq<seq<nat>>)

  const CURRENT_CONTRACT: u32 := 3

  function ContractVersion(program: Option<Program>): u32 {
    match program case None => CURRENT_CONTRACT case Some(p) => p.contractVersion
  }

  /** The table's text where there is one, else the text that came with the index. */
  function Resolve(program: Option<Program>, name: Name): string {
    if program.None? || name.id == 0 || name.id > |program.value.strings| || program.value.strings[name.id - 1] == ""
    then name.text
    else program.value.strings[name.id - 1]
  }

  /** A requirement predicate with every text resolved and without source positions. */
  datatype Operand = Operand(kind: string, text: string, handle: string)

  datatype Subject = Subject(
    definitionPath: string, predicateKind: string, predicateName: string, relationOperator: string,
    sourceText: string, outcome: string, diagnostic: string, nodeId: u64, handle: u64,
    effects: seq<string>, operands: seq<Operand>)

  function ResolveOperands(program: Option<Program>, operands: seq<NamedOperand>): seq<Operand> {
    if operands == [] then []
    else [Operand(Resolve(program, operands[0].kind), Resolve(program, operands[0].text),
                  Resolve(program, operands[0].handle))] + ResolveOperands(program, operands[1..])
  }

  function ResolveEffects(program: Option<Program>, effects: seq<Name>): seq<string> {
    if effects == [] then [] else [Resolve(program, effects[0])] + ResolveEffects(program, effects[1..])
  }

  function SubjectOf(program: Option<Program>, fact: Fact): Subject {
    Subject(Resolve(program, fact.definitionPath), Resolve(program, fact.predicateKind),
            Resolve(program, fact.predicateName), Resolve(program, fact.relationOperator),
            Resolve(program, fact.sourceText), Resolve(program, fact.outcome),
            Resolve(program, fact.diagnostic), fact.nodeId, fact.handle,
            ResolveEffects(program, fact.effects), ResolveOperands(program, fact.operands))
  }

  function Pick(facts: seq<Fact>, indices: seq<nat>): seq<Fact> {
    if indices == [] then []
    else (if indices[0] < |facts| then [facts[indices[0]]] else []) + Pick(facts, indices[1..])
  }

  function PickModules(facts: seq<Fact>, modules: seq<seq<nat>>): seq<Fact> {
    if modules == [] then [] else Pick(facts, modules[0]) + PickModules(facts, modules[1..])
  }

  /** The facts of all modules, or all facts of a program without modules. */
  function Published(program: Program): seq<Fact> {
    if program.modules == [] then program.facts else PickModules(program.facts, program.modules)
  }

  function Subjects(program: Option<Program>, facts: seq<Fact>): seq<Subject> {
    if facts == [] then [] else [SubjectOf(program, facts[0])] + Subjects(program, facts[1..])
  }

  function Prefixed(prefix: string, texts: seq<string>): seq<string> {
    if texts == [] then [] else [prefix + texts[0]] + Prefixed(prefix, texts[1..])
  }
}
