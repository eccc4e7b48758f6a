# PrimeStruct: verified models of the IR pipeline

PrimeStruct lowers every program to one stack-machine intermediate representation (IR). This
project models the components around that IR in Dafny and proves what each of them is for. It
is checked as a whole by `dafny verify dfyconfig.toml`.

| component | modules |
|---|---|
| IR data and execution | `Ir`, `Machine`, `MachineSteps` |
| call inliner | `Inliner`, `InlinerMeaning`, `Widths`, `InlinerSafety`, `InlinerMethod`, `InlinerExact`, `InlinerFailures`, `InlinerLimits`, `Sets`, `Fallibles` |
| dead-function pruning | `Pruning` |
| binary IR format | `Serializer`, `SerializerRoundTrip`, `SerializerFormat`, `SerializerAcceptance`, `SerializerMethod` |
| heap of emitted programs | `Heap`, `HeapRefinement`, `HeapRuntime` |
| compile-time predicates and their cache | `CompileTime`, `Decimals`, `Numerals`, `SortedTexts`, `CacheKey`, `CacheIdentity`, `Kernel`, `Evaluation`, `EvaluationOutcomes`, `EvaluationCache`, `EvaluationRequests`, `EvaluationMethod` |
| import expansion and source positions | `Positions`, `CursorCounts`, `SourceBuilder`, `ImportScan`, `ImportPayload`, `ImportGrammar`, `ImportReading`, `ImportRefusals`, `Imports`, `ImportVersions`, `ImportDirectives`, `ImportStrip`, `ImportContents`, `ImportText`, `ImportSuccess`, `ImportCycle`, `ImportMethod` |
| template type names | `TemplateText`, `TemplateExact`, `Texts` |
| resharding of test suites | `Shards` |

Each component follows one plan. Functions on values say what is computed; lemmas prove what
the source promises about them; methods and classes with the loops and the in-place updates of
the source are proved to compute those functions. Beside each function on values stand lemmas
that say what it yields without naming it: in opcodes, bytes, characters and literal texts.

## What the proofs show

* **Inlining.** A pass that changes something needs a leaf that no function avoided before, so
  `n + 1` passes always reach the point where nothing is left to inline; the loop's bound of
  `2n + 1` is never met. Inlining, also one that stops at an error, preserves the result, the
  shared stack and the world of every returning run that keeps to `Machine.Permitted`: a changed
  function executes no jump; and a function that was inlined into another, where a call enters
  it, returns only at its last instruction, returns no value that its return would narrow, and
  reaches its frame only by LoadLocal and StoreLocal. The function a run starts with is free of
  the second condition. `InlinerSafety` gives conditions on the module alone, before it is
  inlined: an inlined function is straight code, and at a 32-bit return the word on top is known
  to fit, by an analysis of stack and slots (`Widths`) that takes the effects of host opcodes as
  given; with room for the slots no error is reported then. Six modules show results that change
  otherwise (`InlinerLimits`): jump targets are not relocated, an early return becomes a
  fall-through, the narrowing of a 32-bit return is lost, the address of a callee's slot becomes
  that of a slot of the caller, the slot that FileReadByte names is neither counted nor renamed,
  and slot 2^64 - 1 is granted to a callee though no frame holds it. Told in opcodes: without an
  error every call that is left goes to code that branches, is empty, or does not end in a
  return; an error is always an invalid target or a slot number that overflows.
* **Pruning.** Exactly the least closed set of functions is kept; the pruned module runs as the
  original does, step by step, for every outcome, and pruning twice is pruning once.
* **Binary format.** A module is encoded exactly if its version is 23, its entry exists and its
  lengths fit 32 bits, and then to one row of bytes. Whatever is accepted can be encoded again, in
  as many bytes as were read, unless its entry is 2^31 or more. Decoding undoes encoding, whatever bytes follow, *if and only if* no field
  has visibility 1 (read back as 2), no instruction is FileWriteStringDynamic (written by the
  encoder, refused by the decoder, whose largest opcode is HeapRealloc), no source-map entry has
  an unknown provenance, and there are fewer than 2^32 functions (their count is written without
  a check). No strict prefix is accepted of modules with fewer than 2^32 functions; with 2^32 + 1
  one is.
* **Heap.** Every reachable heap is a tiling of the slot vector by blocks. Over every sequence of
  operations it refines a map from bases to contents, in the addresses given out, the faults and
  the values loaded; dead blocks stay dead.
* **Cache.** Key material is equal exactly when versions, policy, budget, imports, published
  facts, the request and its service fingerprints are; so every reply of the cached evaluator is
  the uncached one but for line and column, which may be those of an earlier call of the same
  material, unless two different materials share a digest. Which answer a published outcome
  gives, which need a budget falls short of first, and what a call changes in the cache is stated
  in the words of the fact and the numbers of the budget.
* **Imports.** Expansion ends for every finite set of files, makes at most one Import unit of each
  file, keeps of each file exactly the text outside its directives, puts every import where it is
  named, and records segments that lead each character back to its line and column. The input
  itself is entered again, as an Import unit, exactly if its imports lead back to it. Expansion
  succeeds exactly when a set of existing files encloses what the input names. Directives are
  found as they are written, with comments, bare and quoted paths, versions and escaped quotes;
  but the reader of payloads does not know about escapes, so a path that is escaped like other
  literals is read back exactly if it has neither a quote nor a backslash. A payload resolves to
  the files of its entries, looked up under the version it asks for, exactly if all are found and
  under one version; every payload error is told from what is written.
* **Template type names.** A text splits exactly if it is a base, and balanced text in brackets
  behind it; the arguments of any text are its pieces between commas outside brackets.
* **Resharding.** The greedy packing is a contiguous split with as few shards as possible. Its
  comment promises shards under the target; they are within it exactly if every case is.

## Model

| member | source | states |
|---|---|---|
| `Machine.MoreFuel` | src/runtime/VmExecutionKernel.cpp:102-153 | A run that ended, with a value or a fault, ends the same under any larger step bound: the bound is no part of the meaning. |
| `Machine.GuardedRunIsOrdinary` | src/runtime/VmExecutionKernel.cpp:78-153 | A run under the inliner's conditions that returns is the ordinary run: the conditions only rule runs out. |
| `MachineSteps.Pushes` | src/runtime/VmExecutionKernel.cpp:156-166 | PushI32 (opcode 1) pushes its low 32 bits with their sign; PushI64, PushF32 and PushF64 push the immediate. |
| `MachineSteps.DupsAndPops` | src/runtime/VmExecutionKernel.cpp:283-298 | Dup and Pop, and the fault on an empty stack. |
| `MachineSteps.Locals` | src/runtime/VmExecutionKernel.cpp:173-204 | Loads, stores and addresses of slots, sixteen bytes apart, and their faults. |
| `MachineSteps.LoadsIndirectly` | src/runtime/VmExecutionKernel.cpp:205-219 | A load through an aligned address: of the heap if its top bit is set, else of the frame. |
| `MachineSteps.StoresIndirectly` | src/runtime/VmExecutionKernel.cpp:220-237 | A store takes value and address off the stack and leaves the value. |
| `MachineSteps.ReadsBytes` | src/runtime/VmIoHelpers.cpp:226-247 | A byte read goes to its slot and leaves 0; a failure leaves its code and the slot as it was. |
| `MachineSteps.Jumps` | src/runtime/VmControlFlowOpcodeShared.cpp:17-47 | JumpIfZero takes its condition off the stack and jumps on 0; the end of the code is a target, what lies behind it a fault. |
| `MachineSteps.Returns` | src/runtime/VmControlFlowOpcodeShared.cpp:66-113 | What each of the five returns hands over, and what it leaves on the stack. |
| `MachineSteps.Calls` | src/runtime/VmControlFlowOpcodeShared.cpp:48-65 | A call runs its target in a zeroed frame on the same stack; Call pushes the value returned, CallVoid drops it; invalid targets and too deep calls are faults. |
| `MachineSteps.OthersAreTheHosts` | src/runtime/VmExecutionKernel.cpp:102-115 | Every other opcode is the host's, and the end of the code is a fault. |
| `MachineSteps.SignedComparisons` | src/runtime/VmKernelBoundary.cpp:261-332 | Opcodes 21 to 32 compare signed words, equality first and then the orders. |
| `MachineSteps.UnsignedComparisons` | src/runtime/VmKernelBoundary.cpp:261-332 | Opcodes 33 to 36 compare unsigned words. |
| `InlinerMethod.ComputeLocalCount` | src/IrInliner.cpp:35-44 | The loop yields one more than the largest slot named, as a 64-bit number. |
| `InlinerMethod.AppendInlinedCallee` | src/IrInliner.cpp:46-86 | Appends the spliced callee, or reports the first of its three errors. |
| `InlinerMethod.RewriteFunction` | src/IrInliner.cpp:113-146 | One function of one pass: the rewritten code, the next free slot, whether anything was inlined, or an invalid target. |
| `InlinerMethod.InitialState` | src/IrInliner.cpp:96-105 | Slot counts and leaf marks of all functions. |
| `InlinerMethod.RunPass` | src/IrInliner.cpp:109-156 | One pass, each function seeing the ones before it already rewritten; at an error, what was rewritten before it stays. |
| `InlinerMethod.InlineModuleCalls` | src/IrInliner.cpp:90-164 | The module as it is left behind, finished or not, with all but the instructions unchanged, and the first error, if any. |
| `Inliner.SplicedCodeIsPlain` | src/IrInliner.cpp:60-84 | Spliced code of a callee without calls has none. |
| `Inliner.RewriteCalls` | src/IrInliner.cpp:118-155 | Code changes exactly if some call is inlineable; then calls are lost, and every call to another leaf is gone. |
| `Inliner.RewriteKeepsFlow` | src/IrInliner.cpp:118-146 | A rewrite adds no call and drops nothing but the calls it inlines, so jumps and named slots stay. |
| `Inliner.VisitIsLater` | src/IrInliner.cpp:111-156 | Visiting a function keeps every leaf a leaf, leaves in it no call to another leaf, and changes it only if it called one. |
| `Inliner.ScanIsLater` | src/IrInliner.cpp:109-160 | After a pass no function calls a function that was a leaf when the pass began. |
| `Inliner.ChangeNeedsFreshLeaf` | src/IrInliner.cpp:131-154 | A pass that changes something starts with a leaf outside any set its functions avoid. |
| `Inliner.PassesSettle` | src/IrInliner.cpp:107-161 | The counting argument: each changing pass is charged to a leaf of its own. |
| `Inliner.PassBoundSuffices` | src/IrInliner.cpp:107-161 | Inlining without error ends by the "nothing changed" break with no call to another leaf left, and n + 1 passes give the same module. |
| `InlinerExact.NoLeafIsCalled` | src/IrInliner.cpp:99-161 | Without an error, every call left, but for self-calls, goes to code of the result that has a Call, CallVoid, Jump or JumpIfZero, is empty, or does not end in one of the five returns. |
| `InlinerExact.OnlyLeavesAreInlined` | src/IrInliner.cpp:131-135 | Self-calls stay, and so do calls to what ends up as such code. |
| `InlinerExact.TargetsAreValid` | src/IrInliner.cpp:123-129 | Without an error every call of the module given has a valid target. |
| `InlinerExact.SplicedInstructions` | src/IrInliner.cpp:60-84 | Spliced instructions keep opcode, immediate and debug id, but for renamed slots and replaced returns, which have no debug id. |
| `InlinerExact.FrameIsLeast` | src/IrInliner.cpp:35-44 | The slot count is one more than the largest slot named, or 0. |
| `InlinerFailures.SpliceOverflowsExactly` | src/IrInliner.cpp:61-68 | A callee is spliced exactly if each of its slots, moved by the base, is below 2^64. |
| `InlinerFailures.FailureIsExplained` | src/IrInliner.cpp:107-164 | An error is a call without a function, named with its caller, or a slot number that overflows; functions before the one in error have lost their calls to functions that were leaves from the start. |
| `InlinerMeaning.SplicedCount` | src/IrInliner.cpp:61-69 | Spliced code names exactly the callee's slots, moved up by the base. |
| `InlinerMeaning.RewriteCount` | src/IrInliner.cpp:115-150 | Slot reservation does not wrap, and all slots stay below the recorded count. |
| `InlinerMeaning.SplicedStep` | src/IrInliner.cpp:60-84 | An instruction does in its own frame what its spliced form does in the slots reserved for it. |
| `InlinerMeaning.SplicedCode` | src/IrInliner.cpp:46-86 | Running a callee in a fresh frame and running its spliced code in the caller's leave the same stack and world and do not touch the caller's other slots. |
| `InlinerMeaning.InlinedCall` | src/IrInliner.cpp:137-145 | Each inlined site owns a disjoint range of still-zero slots, and behind it both runs correspond again. |
| `InlinerMeaning.Simulate` | src/IrInliner.cpp:111-156 | Every returning run of any function is matched after one function has been rewritten. |
| `InlinerMeaning.PassesPreserve` | src/IrInliner.cpp:108-161 | The same over any number of passes, up to the end or to an error. |
| `InlinerMeaning.CoveredRunIsPreserved` | src/IrInliner.cpp:90-164 | The same of the whole transformation, under any guards that cover it. |
| `InlinerMeaning.InliningPreservesMeaning` | src/IrInliner.cpp:90-164 | Every returning run within the guards returns the same value, stack and world in the inlined module, or in the one a failed inlining leaves. |
| `InlinerSafety.VisitKeepsNever` | src/IrInliner.cpp:131-135 | Functions that jump, or call one another in a circle, never become leaves. |
| `InlinerSafety.RewriteFits` | src/IrInliner.cpp:61-68 | With room for the slots of all callees, rewriting neither overflows nor wraps, and room remains. |
| `InlinerSafety.InliningSucceeds` | src/IrInliner.cpp:90-164 | Valid targets and room for slots, checked before, mean no error and no slot numbered 2^64 - 1. |
| `InlinerSafety.StaticGuardsCover` | src/IrInliner.cpp:99-161 | Which functions may change or be inlined can be told from the calls of the module. |
| `Widths.ResultFits` | src/runtime/VmControlFlowOpcodeShared.cpp:66-113 | Every value a function returns has the width that all its returns guarantee. |
| `Widths.LearnHolds` | src/runtime/VmExecutionKernel.cpp:155-200 | What the analysis says of the words of stack and slots is true behind every instruction, for every host with the effects stated. |
| `Widths.ComparisonsAreNarrow` | src/runtime/VmKernelBoundary.cpp:261-332 | The kernel's comparisons take two words and leave one that fits every 32-bit return. |
| `InlinerSafety.SafeRunIsGuarded` | src/IrInliner.cpp:70-82 | Runs of safe code meet the conditions on inlined functions, step by step. |
| `InlinerSafety.SafeInliningPreservesMeaning` | src/IrInliner.cpp:90-164 | A module that is safe by inspection, before it is inlined, inlines without error and every returning run is preserved, also through ReturnI32 and ReturnF32 where the word is known to fit. |
| `InlinerLimits.InlineFirstCall` | src/IrInliner.cpp:90-164 | What inlining makes of a caller that begins with its only call. |
| `InlinerLimits.JumpsGoAstray` | src/IrInliner.cpp:118-121 | A module in which a caller's jump target is not moved: it returns before and faults after. |
| `InlinerLimits.EarlyReturnsAreLost` | src/IrInliner.cpp:102-104 | A leaf with a return in the middle: the caller's result changes. |
| `InlinerLimits.NarrowingIsLost` | src/IrInliner.cpp:76-82 | A leaf that returns a wide value through ReturnI32: the caller's result changes. |
| `InlinerLimits.AddressesAreMoved` | src/IrInliner.cpp:61-69 | A leaf that returns the address of its slot: the caller gets another address. |
| `InlinerLimits.ReadsGoAside` | src/IrInliner.cpp:61-83 | A leaf that reads a byte into its slot: inlined, it writes a slot of the caller, and the result changes. |
| `InlinerLimits.LastSlotIsMissing` | src/IrInliner.cpp:63-67 | A callee is granted slot 2^64 - 1, and the run that returned faults. |
| `InlinerLimits.EntryMayNarrow` | src/IrInliner.cpp:148-155 | A function that nothing calls may narrow its result though its code changes and it becomes a leaf: its module is safe. |
| `InlinerLimits.NarrowReturnsAreSafe` | src/IrInliner.cpp:76-82 | A function that returns a pushed 32-bit number through ReturnI32 may be inlined: its module is safe. |
| `Pruning.VisitCalls` | src/IrBackends.cpp:73-84 | Marks and queues exactly the callees met for the first time, and keeps the worklist invariant. |
| `Pruning.FindReachable` | src/IrBackends.cpp:64-85 | The marked functions are the least set that contains the entry and is closed under in-range call targets. |
| `Pruning.CopyKept` | src/IrBackends.cpp:87-99 | The kept functions in their order, and the table of their new numbers in 32 bits. |
| `Pruning.RenumberCalls` | src/IrBackends.cpp:103-112 | Rewrites the call targets the table has a number for and leaves every other immediate. |
| `Pruning.RenumberAll` | src/IrBackends.cpp:102-113 | Does so in every function. |
| `Pruning.PruneByIsExact` | src/IrBackends.cpp:97-111 | The table gives every kept function its place, as long as at most 2^31 are kept. |
| `Pruning.Prune` | src/IrBackends.cpp:57-116 | Without a valid entry the module itself; else the kept functions in order with calls renumbered by the table. |
| `Pruning.KeptButForCalls` | src/IrBackends.cpp:87-115 | Each function left is one that was kept, in order, in all but the immediates of its calls. |
| `Pruning.StoredModulo` | src/IrBackends.cpp:93-99 | The number stored for a function is its place modulo 2^32, as a signed number. |
| `Pruning.RankMonotone` | src/IrBackends.cpp:93-99 | Renumbering keeps the order of kept functions. |
| `Pruning.KeptAtRank` | src/IrBackends.cpp:93-99 | The function kept at its new number is the old one. |
| `Pruning.RankOfKept` | src/IrBackends.cpp:93-99 | Every new number comes from exactly one kept function. |
| `Pruning.TargetRenumbered` | src/IrBackends.cpp:102-113 | A valid target of a kept function is kept and renumbered; an out-of-range one stays out of range. |
| `Pruning.PrunedRun` | src/IrBackends.cpp:87-115 | Every run of a kept function equals the run of its copy, through jumps, recursion and calls, whatever the outcome. |
| `Pruning.PruningPreservesMeaning` | src/IrBackends.cpp:57-116 | From any state and with any bound, the renumbered entry of the pruned module runs as the entry of the original. |
| `Pruning.PrunedIsReachable` | src/IrBackends.cpp:64-115 | In a pruned module every function is reachable. |
| `Pruning.PruningIsIdempotent` | src/IrBackends.cpp:57-116 | Pruning twice gives the module of pruning once. |
| `Serializer.LittleEndianRoundTrip` | src/IrSerializer.cpp:10-26 | A number is recovered from its little-endian bytes. |
| `SerializerRoundTrip.TextUndone` | src/IrSerializer.cpp:28-97 | A string is read back with any bytes behind it. |
| `SerializerRoundTrip.FieldUndone` | src/IrSerializer.cpp:141-155 | A struct field is read back exactly if its visibility is not 1. |
| `SerializerRoundTrip.LayoutUndone` | src/IrSerializer.cpp:130-156 | A struct layout is read back exactly if its fields are. |
| `SerializerRoundTrip.InstructionUndone` | src/IrSerializer.cpp:185-189 | An instruction is read back exactly if its opcode is at most HeapRealloc. |
| `SerializerRoundTrip.FunctionUndone` | src/IrSerializer.cpp:157-190 | A function is read back exactly if its instructions are. |
| `SerializerRoundTrip.EntryUndone` | src/IrSerializer.cpp:196-204 | A source-map entry is read back exactly if its provenance is in range. |
| `SerializerRoundTrip.RoundTripExactly` | src/IrSerializer.cpp:100-456 | For every serialized module and every trailer, decoding gives back the module and the trailer if and only if the module is good. |
| `SerializerRoundTrip.ModuleExtends` | src/IrSerializer.cpp:208-456 | Bytes appended to accepted bytes do not change what is read. |
| `SerializerRoundTrip.PrefixesAreRejected` | src/IrSerializer.cpp:208-456 | No strict prefix of a serialized module with fewer than 2^32 functions is accepted. |
| `SerializerRoundTrip.HugeModulesAreCut` | src/IrSerializer.cpp:113 | With 2^32 + 1 functions the count is written as 1, and a strict prefix is accepted as the module of the first function. |
| `SerializerRoundTrip.DynamicWriteIsLost` | src/IrSerializer.cpp:400-406 | A module with FileWriteStringDynamic is encoded and not read back. |
| `SerializerFormat.FieldIsWritten` | src/IrSerializer.cpp:141-155 | A struct field is encoded exactly if its two texts are shorter than 2^32, to these nine items. |
| `SerializerFormat.FunctionIsWritten` | src/IrSerializer.cpp:157-190 | A function is encoded exactly if its texts and lists fit, to these items. |
| `SerializerFormat.ModuleIsWritten` | src/IrSerializer.cpp:100-206 | Encoding succeeds if and only if the version is 23, the entry is a function, and every text and list but that of functions is shorter than 2^32; and then it gives the bytes of the items of the format. |
| `SerializerFormat.ModuleIsReadBack` | src/IrSerializer.cpp:100-456 | From those bytes, with any behind them, the module is read back if and only if it is good. |
| `SerializerAcceptance.HeaderTaken` | src/IrSerializer.cpp:208-236 | Bytes that are accepted begin with RISP, version 23 and the number of functions. |
| `SerializerAcceptance.AcceptedCanBeWritten` | src/IrSerializer.cpp:208-456 | What is accepted can be encoded, in as many bytes as were read, if and only if its entry is not taken for negative. |
| `SerializerAcceptance.AcceptedIsStable` | src/IrSerializer.cpp:208-456 | Encoded and decoded again it is the same module if and only if no field has visibility 1. |
| `SerializerAcceptance.FieldIsReadLoosely` | src/IrSerializer.cpp:296-319 | The words of a field: the last byte of padding, category and visibility counts, visibility 1 is 2, and any number but 0 is true. |
| `SerializerMethod.AppendU32` | src/IrSerializer.cpp:10-15 | Pushes the four bytes, lowest first. |
| `SerializerMethod.AppendU64` | src/IrSerializer.cpp:17-26 | Pushes the eight bytes, lowest first. |
| `SerializerMethod.AppendText` | src/IrSerializer.cpp:28-39 | Pushes length and bytes, or refuses a text over 32 bits of length. |
| `SerializerMethod.AppendField` | src/IrSerializer.cpp:141-155 | Pushes one struct field. |
| `SerializerMethod.AppendLayout` | src/IrSerializer.cpp:130-156 | Pushes one struct layout with its fields. |
| `SerializerMethod.AppendInstructions` | src/IrSerializer.cpp:180-189 | Pushes the count and the instructions of a function. |
| `SerializerMethod.AppendFunction` | src/IrSerializer.cpp:157-190 | Pushes one function with slots and instructions. |
| `SerializerMethod.AppendEntries` | src/IrSerializer.cpp:191-204 | Pushes the source map. |
| `SerializerMethod.Serialize` | src/IrSerializer.cpp:100-206 | The bytes of `Encode`, or its error. |
| `SerializerMethod.TakeU8` | src/IrSerializer.cpp:70-77 | Reads a byte at the offset, or reports truncation. |
| `SerializerMethod.TakeU32` | src/IrSerializer.cpp:41-52 | Reads four bytes at the offset, or reports truncation. |
| `SerializerMethod.TakeU64` | src/IrSerializer.cpp:54-68 | Reads eight bytes at the offset, or reports truncation. |
| `SerializerMethod.TakeText` | src/IrSerializer.cpp:79-97 | Reads a length and that many bytes. |
| `SerializerMethod.TakeField` | src/IrSerializer.cpp:274-321 | Reads one struct field, with visibility 1 taken for 2. |
| `SerializerMethod.TakeLayouts` | src/IrSerializer.cpp:250-323 | Reads the struct layouts. |
| `SerializerMethod.TakeInstructions` | src/IrSerializer.cpp:388-418 | Reads the instructions of a function, refusing unknown opcodes. |
| `SerializerMethod.TakeFunction` | src/IrSerializer.cpp:325-420 | Reads one function. |
| `SerializerMethod.TakeEntries` | src/IrSerializer.cpp:421-449 | Reads the source map, refusing unknown provenance. |
| `SerializerMethod.Deserialize` | src/IrSerializer.cpp:208-456 | Accepts exactly what `Decode` accepts, with the same module and stopping offset. |
| `HeapRuntime.Runtime.constructor` | primec_tests/ir_backend_registry_stack_underflow_guards.cpp:128-134 | An empty heap, which is tiled. |
| `HeapRuntime.Runtime.ResolveSlot` | primec_tests/ir_backend_registry_stack_underflow_guards.cpp:136-160 | The search finds the slot `Resolve` gives, or none. |
| `HeapRuntime.Runtime.Allocate` | primec_tests/ir_backend_registry_stack_underflow_guards.cpp:162-182 | Both vectors become those of `Alloc`, or stay. |
| `HeapRuntime.Runtime.Release` | primec_tests/ir_backend_registry_stack_underflow_guards.cpp:184-209 | Both vectors become those of `Free`, or stay. |
| `HeapRuntime.Runtime.Resize` | primec_tests/ir_backend_registry_stack_underflow_guards.cpp:211-263 | Both vectors become those of `Realloc`, or stay. |
| `HeapRuntime.Runtime.Write` | primec_tests/ir_backend_registry_stack_underflow_guards.cpp:627-635 | A store changes the resolved slot and nothing else. |
| `Heap.AddressRoundTrip` | primec_tests/ir_backend_registry_stack_underflow_guards.cpp:174-180 | Slot numbers below 2^59 and tagged aligned addresses correspond one to one. |
| `Heap.AddressesAscend` | primec_tests/ir_backend_registry_stack_underflow_guards.cpp:174-180 | The first slot is at 2^63 and each next one sixteen bytes further. |
| `Heap.AllocRefines` | primec_tests/ir_backend_registry_stack_underflow_guards.cpp:162-182 | Allocation adds a zeroed block behind every block there has been, live or dead. |
| `Heap.FreeRefines` | primec_tests/ir_backend_registry_stack_underflow_guards.cpp:184-209 | Freeing succeeds exactly on the base of a live block and removes that block. |
| `Heap.ResolveIsExact` | primec_tests/ir_backend_registry_stack_underflow_guards.cpp:136-160 | An address resolves exactly if it is tagged, aligned and inside a live block. |
| `Heap.EverySlotIsAddressable` | primec_tests/ir_backend_registry_stack_underflow_guards.cpp:174-180 | With at most 2^59 slots every slot of a live block has an address. |
| `Heap.StoreRefines` | primec_tests/ir_backend_registry_stack_underflow_guards.cpp:627-635 | A store changes one slot of one block. |
| `Heap.ReallocRefines` | primec_tests/ir_backend_registry_stack_underflow_guards.cpp:226-263 | A live block moves to a fresh one with its first min(old, n) values and zeros, the old one dies, others stay; without room the result is 0 and nothing changes. |
| `Heap.StepKeepsTiled` | primec_tests/ir_backend_registry_stack_underflow_guards.cpp:136-263 | Every operation keeps the table a tiling with zeroed dead blocks and revives none. |
| `Heap.ReachableIsTiled` | primec_tests/ir_backend_registry_stack_underflow_guards.cpp:136-263 | So does every sequence of operations from the empty heap. |
| `HeapRefinement.StepActs` | primec_tests/ir_backend_registry_stack_underflow_guards.cpp:136-263 | Each operation succeeds exactly if it does on the map of blocks, gives out the same address and refines the new map. |
| `HeapRefinement.HeapRefinesBlocks` | primec_tests/ir_backend_registry_stack_underflow_guards.cpp:136-263 | Over every sequence of operations from the empty heap, addresses, faults and loaded values are those of the map of blocks. |
| `Heap.DeadStaysDead` | primec_tests/ir_backend_registry_stack_underflow_guards.cpp:136-263 | After any further operations a dead block resolves nowhere, cannot be freed or moved, holds zeros and is not handed out. |
| `Decimals.DecimalReads` | src/CompileTimeEvaluation.cpp:410 | A number is recovered from its decimal text. |
| `CacheKey.FieldCancels` | src/CompileTimeEvaluation.cpp:405-420 | A length-prefixed field is read back off any text, whatever its value contains. |
| `CacheKey.HeadCancels` | src/CompileTimeEvaluation.cpp:405-420 | So is a list of fields, up to the part on services. |
| `CacheKey.FactMaterialIsExact` | src/CompileTimeEvaluation.cpp:460-542 | Two predicates are written alike exactly if all texts, ids and operands and the sets of effects agree. |
| `SortedTexts.SortUniqueForgetsRepetition` | src/CompileTimeEvaluation.cpp:437-441 | Sorting without repetition depends on the set of texts and determines it. |
| `SortedTexts.SortForgetsOrder` | src/CompileTimeEvaluation.cpp:813-814 | Sorting depends on the bag of texts and determines it. |
| `CacheIdentity.FactsTell` | src/CompileTimeEvaluation.cpp:803-817 | The bag of fact texts and the bag of published facts determine each other. |
| `CacheIdentity.MaterialIsExact` | src/CompileTimeEvaluation.cpp:765-844 | Key material is equal if and only if versions, policy, budget, import set, bag of facts, request and service fingerprints are. |
| `Evaluation.ParseUndoesDecimal` | src/CompileTimeEvaluation.cpp:284-293 | Numbers below 2^64 are parsed from their decimal text, larger ones refused. |
| `Evaluation.KernelDecides` | src/runtime/VmKernelBoundary.cpp:261-332 | The kernel opcode chosen for each comparison, run on a stack of two words, decides that relation of unsigned numbers. |
| `Evaluation.ValuePredicatesCompare` | src/CompileTimeEvaluation.cpp:230-379 | On two printed 64-bit numbers each of the six value predicates is the relation its name says. |
| `Evaluation.BudgetIsThreshold` | src/CompileTimeEvaluation.cpp:1232-1312 | Each limit is compared with what is needed: if all suffice the answer is the one without budget, else it is exhaustion. |
| `Evaluation.BudgetsAreMonotone` | src/CompileTimeEvaluation.cpp:1232-1312 | A result that is not exhaustion is the same under every larger budget. |
| `Evaluation.PositionsDoNotMatter` | src/CompileTimeEvaluation.cpp:152-163 | Line and column influence neither the answer nor the budget it takes. |
| `EvaluationOutcomes.FirstShortageIsReported` | src/CompileTimeEvaluation.cpp:1232-1273 | The first of six needs above its limit is reported by name, use and limit. |
| `EvaluationOutcomes.OutcomeDecides` | src/CompileTimeEvaluation.cpp:68-94 | For a path of no value predicate, "satisfied" and "success" give success and true; five texts their own kind; "invalid_evaluation" and any other text an invalid evaluation; the message is the diagnostic. |
| `EvaluationOutcomes.ReportIsChecked` | src/CompileTimeEvaluation.cpp:978-1091 | Answers but the three reported as they are need room for message and provenance, else the first need short of it is reported. |
| `EvaluationOutcomes.ParseIsExact` | src/CompileTimeEvaluation.cpp:284-293 | A text is parsed as a number if and only if it is zeros and the decimal text of one below 2^64. |
| `EvaluationOutcomes.ComparisonIsShown` | src/CompileTimeEvaluation.cpp:349-379 | Two numbers are compared as the path says, and the message shows numbers, sign and outcome. |
| `EvaluationOutcomes.OddOperandsAreRefused` | src/CompileTimeEvaluation.cpp:312-347 | Other than two operands, or one that is no literal or no number, give an invalid evaluation that names the first flaw. |
| `EvaluationCache.MaterialDecides` | src/CompileTimeEvaluation.cpp:765-844 | Equal material, equal answers but for the position. |
| `EvaluationCache.FoundEntry` | src/CompileTimeEvaluation.cpp:1211-1228 | An entry found is the uncached answer to an earlier call of the same material, or its material differs and its digest does not. |
| `EvaluationCache.CacheIsTransparent` | src/CompileTimeEvaluation.cpp:1154-1325 | Over every sequence of calls from an empty cache, for every digest, each reply is the uncached one but for line and column, and word for word the uncached answer to this or an earlier call of the same material; or it is a mismatch fault caused by an earlier call with the same digest and other material. |
| `EvaluationCache.CountersBalance` | src/CompileTimeEvaluation.cpp:1203-1324 | Hits, misses and mismatches add up to the consultations; entries and stores are equally many. |
| `EvaluationCache.RepetitionHits` | src/CompileTimeEvaluation.cpp:1211-1228 | A stored answer is found by the same call, with its own position. |
| `EvaluationRequests.RequestComesFirst` | src/CompileTimeEvaluation.cpp:1154-1170 | A request with program, fact and budget is prepared alike whatever the evaluator has. |
| `EvaluationRequests.EvaluatorSupplies` | src/CompileTimeEvaluation.cpp:1154-1170 | What a request lacks, or has at its default, is the evaluator's. |
| `EvaluationRequests.TableComesFirst` | src/CompileTimeEvaluation.cpp:19-29 | A text is taken from the table, unless index or entry is missing or empty. |
| `EvaluationRequests.FactIsTaken` | src/CompileTimeEvaluation.cpp:1435-1447 | Each text of the subject and the provenance is that of the same part of the fact. |
| `EvaluationRequests.IndexIsPicked` | src/CompileTimeEvaluation.cpp:32-56 | An index of a module adds its fact if there is one. |
| `EvaluationRequests.ModulesAreFlattened` | src/CompileTimeEvaluation.cpp:32-56 | The indices of modules are read row after row. |
| `EvaluationRequests.ModulesPublish` | src/CompileTimeEvaluation.cpp:32-56 | Without modules all facts are published, with modules those they name. |
| `EvaluationRequests.RequestIsPrepared` | src/CompileTimeEvaluation.cpp:765-841 | Version, policy, imports, facts and fingerprints the key is made of, with their defaults. |
| `EvaluationRequests.FlawIsAnswered` | src/CompileTimeEvaluation.cpp:1183-1191 | A flawed fact is an internal error at the position of the request, with the flaw as message. |
| `EvaluationRequests.MissingFactIsAnswered` | src/CompileTimeEvaluation.cpp:1171-1180 | So is a missing fact. |
| `EvaluationRequests.MissingReads` | src/CompileTimeEvaluation.cpp:546-576 | The message tells what was looked up. |
| `EvaluationRequests.OneCounterMoves` | src/CompileTimeEvaluation.cpp:1203-1324 | A lookup is a hit, a mismatch or a miss; a miss stores its answer exactly if the six needs are met and the path is of no value predicate. |
| `EvaluationRequests.UnusedCacheStays` | src/CompileTimeEvaluation.cpp:1203-1206 | A call that does not use the cache does not change it. |
| `EvaluationRequests.OrderIsLexicographic` | src/CompileTimeEvaluation.cpp:437-441 | Texts are sorted by the first character in which they differ. |
| `EvaluationRequests.FieldIsWritten` | src/CompileTimeEvaluation.cpp:405-414 | A field is its key, the length of its value, and the value. |
| `EvaluationRequests.VersionsAreNamed` | src/CompileTimeEvaluation.cpp:772-788 | The four fields of versions and policy. |
| `EvaluationRequests.LimitsAreNamed` | src/CompileTimeEvaluation.cpp:443-458 | The nine fields of the budget. |
| `EvaluationMethod.AddSaturates` | src/CompileTimeEvaluation.cpp:144-150 | Saturating additions yield min(2^64 - 1, true sum). |
| `EvaluationMethod.ValueBytes` | src/CompileTimeEvaluation.cpp:165-179 | The total of all operand texts, saturated. |
| `EvaluationMethod.StorageBytes` | src/CompileTimeEvaluation.cpp:181-199 | The total of values, source text, handles and positions, saturated. |
| `EvaluationMethod.HostBytes` | src/CompileTimeEvaluation.cpp:201-223 | The total of the five texts handed to the host, saturated. |
| `EvaluationMethod.ProvenanceBytes` | src/CompileTimeEvaluation.cpp:152-163 | The total of the provenance, saturated. |
| `EvaluationMethod.CheckBudget` | src/CompileTimeEvaluation.cpp:1232-1273 | The first of six limits that does not suffice, in their order. |
| `EvaluationMethod.Report` | src/CompileTimeEvaluation.cpp:978-1001 | A result within the diagnostic and provenance limits, or exhaustion. |
| `EvaluationMethod.CompareValues` | src/CompileTimeEvaluation.cpp:295-379 | The comparison of two literal operands by the kernel opcode, or why it cannot be made. |
| `EvaluationMethod.RequirementFactMaterial` | src/CompileTimeEvaluation.cpp:460-542 | The text of one predicate. |
| `EvaluationMethod.BuildMaterial` | src/CompileTimeEvaluation.cpp:765-841 | The key material. |
| `EvaluationMethod.CompileTimeCache.constructor` | include/primec/CompileTimeEvaluation.h:152-158 | An enabled, empty cache. |
| `EvaluationMethod.CompileTimeCache.Clear` | include/primec/CompileTimeEvaluation.h:160-166 | Empties entries and counters and keeps the switch. |
| `EvaluationMethod.CompileTimeCache.EvaluateRequirementPredicate` | src/CompileTimeEvaluation.cpp:1154-1325 | Reply, entries and counters are those of one step of the state machine. |
| `Positions.AdvanceShift` | src/SourceLocationMapper.cpp:288-296 | Behind the same text two cursors keep their distance: line and column on the first line, the line alone later. |
| `Positions.SegmentsTile` | src/ExpandedSourceBuilder.cpp:46-68 | Segments are nonempty, begin and end with the text, and each begins where the one before ends. |
| `Positions.PointLiesInItsSegment` | src/SourceLocationMapper.cpp:19-29 | A character's position lies in the segment of its piece and in no other. |
| `Positions.PositionsAreExact` | src/SourceLocationMapper.cpp:278-301 | For every character of a piece cut from a source, mapping through its segment gives the cursor of its original offset. |
| `CursorCounts.CursorIsCounted` | src/ImportResolver.cpp:28-40 | Line and column are counts of line breaks and of the characters behind the last one. |
| `CursorCounts.GeneratedTextHasNoLine` | src/SourceLocationMapper.cpp:278-300 | Generated text is mapped to line 0 and to columns from 1. |
| `SourceBuilder.HullsKept` | src/ExpandedSourceBuilder.cpp:96-113 | Recording a segment keeps every unit's range the hull of its segments. |
| `SourceBuilder.CursorAfter` | src/ExpandedSourceBuilder.cpp:8-19 | The cursor behind a text. |
| `SourceBuilder.ExpandedSourceBuilder.constructor` | src/ExpandedSourceBuilder.cpp:27-28 | A builder that goes on behind the text and tables it is given. |
| `SourceBuilder.ExpandedSourceBuilder.AddUnit` | src/ExpandedSourceBuilder.cpp:30-44 | Adds a unit without range, numbered by its place. |
| `SourceBuilder.ExpandedSourceBuilder.AppendSegment` | src/ExpandedSourceBuilder.cpp:46-68 | Text, segments, cursor and ranges become those with one more piece; an empty text or unknown unit is ignored. |
| `SourceBuilder.ExpandedSourceBuilder.AppendGenerated` | src/ExpandedSourceBuilder.cpp:70-75 | A Generated unit with one piece. |
| `SourceBuilder.ExpandedSourceBuilder.AdvanceCursor` | src/ExpandedSourceBuilder.cpp:85-94 | The cursor behind the text. |
| `ImportScan.LineEnd` | src/ImportResolverHelpers.cpp:143-149 | The first line break at or behind the position, or the end. |
| `ImportScan.BlockEnd` | src/ImportResolverHelpers.cpp:151-157 | Right behind the first end of a block comment, or the end. |
| `ImportScan.LiteralIsSkipped` | src/ImportResolverHelpers.cpp:123-141 | A double-quoted literal of any escaped text is skipped as a whole. |
| `ImportScan.SkipQuotedLiteral` | src/ImportResolverHelpers.cpp:123-141 | The loop ends behind the literal, or at the end of the text. |
| `ImportScan.SkipLineComment` | src/ImportResolverHelpers.cpp:143-149 | The loop ends at the next line break. |
| `ImportScan.SkipWhitespaceAndComments` | src/ImportResolverHelpers.cpp:159-181 | The loop, taking a run of spaces and a comment at a time, ends behind all of them. |
| `ImportScan.FindIncludePayloadEnd` | src/ImportResolverHelpers.cpp:183-231 | The loop finds the '>' outside literals and comments, or none. |
| `ImportScan.ScanDirective` | src/ImportResolverHelpers.cpp:233-280 | Start and end of the payload of a directive at a position, if there is one. |
| `ImportPayload.ValidateSlashPath` | src/ImportResolverHelpers.cpp:52-85 | The first flaw of a slash path, or none. |
| `ImportPayload.ParseVersionParts` | src/ImportResolverHelpers.cpp:417-448 | The numbers of a version, or why it is none. |
| `ImportPayload.ParseEntry` | src/ImportResolver.cpp:121-181 | One entry of a payload: version, quoted path or slash path, or its error. |
| `ImportPayload.ParsePayload` | src/ImportResolver.cpp:107-187 | The entries and the version of a payload, or the first error. |
| `ImportReading.SlashPathIsExact` | src/ImportResolverHelpers.cpp:52-85 | A text is a slash path if and only if it is a row of unreserved words, each behind a slash. |
| `ImportReading.VersionIsRead` | src/ImportResolverHelpers.cpp:417-448 | One to three numbers joined by points are read back; more are refused. |
| `ImportGrammar.ScansExactly` | src/ImportResolverHelpers.cpp:123-141 | The scanner comes out behind the closing quote if and only if every quote inside is escaped and no backslash dangles. |
| `ImportGrammar.ReadsExactly` | src/ImportResolverHelpers.cpp:282-297 | The reader comes to the closing quote if and only if the text does not contain the quote. |
| `ImportGrammar.AgreeExactly` | src/ImportResolverHelpers.cpp:123-141 | Both do if and only if the quote is not in the text and its last backslash does not dangle. |
| `ImportGrammar.DirectiveIsFound` | src/ImportResolverHelpers.cpp:159-257 | Wherever it stands, a directive as it may be written is found, with its payload, despite '>' and escaped quotes in literals and '>' in comments. |
| `ImportGrammar.QuotedImportIsFound` | src/ImportResolverHelpers.cpp:123-257 | So is one with a path escaped like other literals, whatever the path contains. |
| `ImportDirectives.CharacterClasses` | src/ImportResolverHelpers.cpp:20-47 | The characters that bound words, quote, separate and make up words. |
| `ImportDirectives.HeadIsExact` | src/ImportResolverHelpers.cpp:233-257 | A payload begins behind the word, spaces and comments and the bracket, if no word character is before it, and nowhere else. |
| `ImportDirectives.LookIsExact` | src/ImportResolver.cpp:71-103 | Outside literals and comments, a position holds an old directive, an import, or one character to step over, told by the heads that stand there. |
| `ImportDirectives.SlashBeginsBareText` | src/ImportResolverHelpers.cpp:183-231 | In a bare path two slashes begin no comment. |
| `ImportDirectives.MarksEndBareText` | src/ImportResolverHelpers.cpp:203-208 | Behind a space, a mark or an equals sign comments count again. |
| `ImportDirectives.OpenLiteralIsIgnored` | src/ImportResolverHelpers.cpp:192-202 | A literal that stays open does not hide the next bracket. |
| `ImportDirectives.BrokenDirectiveStops` | src/ImportResolver.cpp:85-103 | An old directive or one without an end stops the expansion with its error. |
| `ImportDirectives.LegacyIsTold` | src/ImportResolver.cpp:85-95 | An old directive with a payload as it may be written is told as such. |
| `ImportDirectives.UnitsAreKnown` | src/ImportResolver.cpp:385-467 | The first unit is the input, and every other a file entered or a line break behind one. |
| `ImportReading.PayloadIsRead` | src/ImportResolver.cpp:107-187 | Every payload as it may be written, whose quoted texts do not contain their quote, is read as what was written. |
| `ImportReading.EscapedPathIsRead` | src/ImportResolverHelpers.cpp:282-297 | An escaped path is read back if and only if it contains neither a quote nor a backslash. |
| `ImportReading.QuoteInPathIsRefused` | src/ImportResolver.cpp:158-163 | The path a"b, escaped, is refused as text after a path. |
| `ImportReading.QuoteInPathIsMisread` | src/ImportResolver.cpp:151-163 | The path a" //b, escaped, is silently read as another. |
| `ImportRefusals.NothingIsRefused` | src/ImportResolver.cpp:184-187 | A payload of separators alone has no path. |
| `ImportRefusals.OpenQuoteIsRefused` | src/ImportResolverHelpers.cpp:282-297 | Behind any entries that can be read: a quote that is not closed. |
| `ImportRefusals.TextAfterPathIsRefused` | src/ImportResolver.cpp:151-163 | Text right behind a quoted path. |
| `ImportRefusals.BadBarePathIsRefused` | src/ImportResolver.cpp:164-178 | A path without quotes that does not begin with a slash, or is no slash path. |
| `ImportRefusals.MissingEqualsIsRefused` | src/ImportResolver.cpp:122-129 | A version without an equals sign. |
| `ImportRefusals.SecondVersionIsRefused` | src/ImportResolver.cpp:130-135 | A second version. |
| `ImportRefusals.UnquotedVersionIsRefused` | src/ImportResolver.cpp:136-141 | A version without quotes. |
| `ImportRefusals.OpenVersionIsRefused` | src/ImportResolver.cpp:136-141 | A version whose quote is not closed. |
| `ImportRefusals.TextAfterVersionIsRefused` | src/ImportResolver.cpp:142-149 | Text right behind a version. |
| `ImportRefusals.FirstBadWordDecides` | src/ImportResolverHelpers.cpp:52-85 | The first word that is reserved, or is none, decides the flaw of a slash path. |
| `ImportRefusals.EndingSlashIsBad` | src/ImportResolverHelpers.cpp:80-83 | A slash at the end is a flaw. |
| `ImportVersions.VersionIsExact` | src/ImportResolverHelpers.cpp:417-448 | A text is a version if and only if it is one to three numbers, with any leading zeros, joined by points; each error is told. |
| `ImportVersions.FilesAreThoseAskedFor` | src/ImportResolver.cpp:188-384 | A payload resolves to the files of its entries in order, looked up under the version asked for, or under none. |
| `ImportVersions.FirstRefusalIsReported` | src/ImportResolver.cpp:188-384 | The first entry not found, without version, under another version, or without files is the error. |
| `ImportVersions.ResolvesExactly` | src/ImportResolver.cpp:188-384 | A payload resolves if and only if all entries are found and have files, and, if a version is asked for, all under one version. |
| `ImportVersions.BadVersionFails` | src/ImportResolver.cpp:188-195 | A version that is none makes the payload fail. |
| `Imports.CutsAreStripped` | src/ImportResolver.cpp:70-413 | The slices copied from a source are its text without import directives. |
| `ImportStrip.SourceIsStripped` | src/ImportResolver.cpp:70-103 | For a source written as plain text, literals, comments and directives in a row, what is kept is the row without the directives, and no error is found. |
| `Imports.CutsAreSlices` | src/ImportResolver.cpp:42-56 | Every slice carries the cursor of its offset. |
| `Imports.ExpandOnce` | src/ImportResolver.cpp:385-399 | Import units have distinct keys, exactly the keys expanded. |
| `Imports.Expand` | src/ImportResolver.cpp:63-419 | Terminates for every finite file map, cyclic or not, and only adds to the expanded keys. |
| `ImportContents.ExpandGrows` | src/ImportResolver.cpp:63-419 | Expansion adds to the unit exactly the slices of its source, to older units nothing, and completes all new ones. |
| `ImportContents.ExpansionIsFaithful` | src/ImportResolver.cpp:63-467 | On success unit 0 is the input, each unit's pieces make up its file without import directives, and no file has two Import units. |
| `ImportContents.ExpansionKeepsPositions` | src/ImportResolver.cpp:42-56 | Every character of the flattened text that comes from a file is mapped to its line and column there. |
| `ImportSuccess.ExpansionSucceeds` | src/ImportResolver.cpp:63-419 | Expansion succeeds from every file of a set of existing files with sound directives that none of them leaves, cycles included. |
| `ImportSuccess.ExpandedIsLeast` | src/ImportResolver.cpp:385-413 | The keys expanded are the least set that holds what the input names, what is named there, and so on. |
| `ImportSuccess.InputIsEnteredAgain` | src/ImportResolver.cpp:461-466 | The input gets an Import unit beside its own if and only if every such set holds its key. |
| `ImportSuccess.SuccessIsClosure` | src/ImportResolver.cpp:63-467 | Expansion succeeds if and only if a set of keys of existing files holds what the input names, what is named there, and so on, and no directive on the way is broken. |
| `ImportCycle.CycleEntersInput` | src/ImportResolver.cpp:461-466 | Two files that import each other give three units: the input, the other, and the input again. |
| `ImportText.ExpansionIsInclusion` | src/ImportResolver.cpp:63-419 | The flattened text is the input with each directive replaced, in place, by its files not included before, each ended by a line break; failures agree. |
| `ImportMethod.SourceCursorAt` | src/ImportResolver.cpp:28-40 | The cursor behind the first characters of a source. |
| `ImportMethod.AppendSourceSlice` | src/ImportResolver.cpp:42-56 | Appends the slice with its cursor, or nothing if it is empty. |
| `ImportMethod.ResolvePayload` | src/ImportResolver.cpp:107-384 | Payload, version and entries in turn give the files of a directive, or the first error; entries of one directive share a version. |
| `ImportMethod.Step` | src/ImportResolver.cpp:71-103 | What the scan finds at a position. |
| `ImportMethod.LoadFiles` | src/ImportResolver.cpp:385-413 | The loop over the files of a directive. |
| `ImportMethod.ExpandInternal` | src/ImportResolver.cpp:63-419 | The recursive scan computes `Expand` on the builder. |
| `ImportMethod.ExpandAll` | src/ImportResolver.cpp:438-467 | Starting with the Primary unit, the builder ends up as `ExpandImports` says. |
| `TemplateText.JoinTemplateArgs` | src/IrPrinterHelpers.cpp:10-19 | The arguments separated by a comma and a space. |
| `TemplateText.SplitTemplateTypeName` | src/IrPrinterHelpers.cpp:21-48 | Base and argument text, if the bracket opened first closes at the end. |
| `TemplateText.Segment` | src/IrPrinterHelpers.cpp:55-65 | The text between two offsets without outer spaces. |
| `TemplateText.SplitTopLevelTemplateArgs` | src/IrPrinterHelpers.cpp:50-87 | The trimmed segments between commas outside brackets. |
| `TemplateText.SplittingUndoesJoining` | src/IrPrinterHelpers.cpp:10-87 | For a base without '<' and trimmed, balanced arguments without outer commas, at any depth, splitting gives back base and arguments; only an empty base is refused. |
| `TemplateExact.TypeNameIsExact` | src/IrPrinterHelpers.cpp:21-48 | A text splits into base and argument if and only if it is the base, balanced text in brackets and nothing else, and the base is not empty and has no bracket. |
| `TemplateExact.PlainNamesStay` | src/IrPrinterHelpers.cpp:24-27 | A text without a bracket does not split. |
| `TemplateExact.ArgumentsAreExact` | src/IrPrinterHelpers.cpp:50-87 | The arguments of any text are its pieces between commas outside brackets, without outer spaces. |
| `TemplateExact.TrimIsExact` | src/IrPrinterHelpers.cpp:55-65 | Trimming takes off exactly the outer spaces. |
| `Shards.PackIsSplit` | scripts/check_test_duration_budget.py:47-66 | Greedy packing cuts the cases into consecutive nonempty shards, each within the target unless it is a single case. |
| `Shards.LighterIsNoWorse` | scripts/check_test_duration_budget.py:57-62 | Opening with a lighter shard never costs one, with any shard at most one. |
| `Shards.GreedyIsOptimal` | scripts/check_test_duration_budget.py:47-66 | No contiguous split with that property has fewer shards. |
| `Shards.WithinTargetExactly` | scripts/check_test_duration_budget.py:47-66 | For non-negative durations every shard is within the target if and only if every case is. |
| `Shards.LongCaseExceeds` | scripts/check_test_duration_budget.py:57-62 | A case above the target is a shard of its own that exceeds it. |
| `Shards.ShardMayMeetTarget` | scripts/check_test_duration_budget.py:57-62 | Two cases that meet the target exactly share a shard, which is not under it. |
| `Shards.ProposeShards` | scripts/check_test_duration_budget.py:47-66 | The loop's shards are such a split and as few as possible for non-negative durations. |

## Left out

- InlinerMeaning.InliningPreservesMeaning: one direction only. The guards are sufficient, and for jumps, early returns, narrowed values, slot addresses, bytes read into a slot and slot 2^64 - 1 a module shows that they cannot just be dropped; whether a given run would be preserved without them depends on what the program computes, so there is no exact condition to check before the call. Error texts here and in the serializer are not modelled.
- Pruning.PruneByIsExact: at most 2^31 kept functions, because the renumbering is kept in 32-bit integers. The schema version is not copied by the source and is the current one in the result.
- Heap.EverySlotIsAddressable: for heaps of at most 2^59 slots, because only the base of an allocation is checked against the last address.
- SerializerRoundTrip.PrefixesAreRejected: for fewer than 2^32 functions, since the encoder writes the count modulo 2^32; `HugeModulesAreCut` shows a family of modules beyond.
- ImportSuccess.SuccessIsClosure: for worlds in which names of one key have one text and name the same files, and a named file exists under the name given if it exists at all.
- ImportMethod.ExpandInternal: on failure the error is described, not the builder that is left behind.
- ImportStrip.SourceIsStripped: plain text in which the words import and include do not occur; the scanner also passes over them where they are part of a longer word or no bracket follows.
- Host opcodes: arithmetic, float, heap, print and file opcodes are left uninterpreted in `Machine`, as arbitrary functions on stack and world. Execution follows the VM kernel (src/runtime/VmExecutionKernel.cpp), in which a function that falls off its end faults; the heap follows the emitted C++.
- Fact validation and fact lookup (src/CompileTimeEvaluation.cpp:578-763 and the host classes) are arbitrary functions; so are the digest and the fingerprints of host services. Of the VM kernel only the integer comparisons are modelled. `requireEffect` and the text of formatted results are not modelled. Cache counters are unbounded.
- Version directories, path resolution, private folders, archives and file reading in the import resolver: arbitrary functions from an entry to a place, and from a place to its files, over a finite map of files. Paths are taken as absolute, version numbers as unbounded, errors as kinds without their texts.
- The line index of the source location mapper: lookups are stated by the segment that contains the position. Lines and columns are unbounded integers.
- Durations in resharding are exact reals, not floating point.
- Lexer, parser, semantic analysis, lowering, IR validation, emitters, back ends, process running, command line and printing of ASTs and diagnostics are not part of this model.
