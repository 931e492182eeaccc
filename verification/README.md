# Verification of the tcpform core

tcpform plans a protocol's steps, model-checks the plan, runs it with one thread
per role, and ships a schema codec, a module loader and trace tools. This project
models that logic in Dafny and proves what it promises. `dafny verify dfyconfig.toml`
checks every file.

| files | part of tcpform |
|---|---|
| `Protocols`, `Collections`, `Planner` | the protocol and `graph::plan` |
| `ModelChecker`, `Explorer`, `Checker` | `model_check::check`, a bounded breadth-first search |
| `Engine`, `Scheduler`, `Progress`, `Tracing`, `Sim`, `AttemptRuns` | the concurrent engine, one atomic step at a time, and its attempt loops |
| `Refinement`, `Realization`, `LoopZero`, `Promises`, `CheckerGaps`, `Guards` | which schedules of the checker are runs of the engine, both ways, and what a report says about runs |
| `Syntax`, `Grammar`, `Parser`, `ParserCorrect` | the recursive-descent parser against a grammar |
| `Paths`, `Imports`, `Loader`, `LoaderCorrect`, `LoaderContents` | the import loader against the import graph |
| `Bytes`, `Integers`, `Crc`, `CrcPolynomial`, `Schemas`, `Codec`, `CodecLoops`, `RoundTrip`, `Conformance`, `BitFields`, `Layouts` | the schema codec and its checksums |
| `Minimizer`, `TraceDiff`, `Reassembly`, `HeaderChecksum`, `Frames` | delta debugging, trace alignment, TCP reassembly, header editing |

Code that updates state in the source is imperative here too: loops with
invariants, the classes `Sim`, `TokenParser` and `ImportLoader`, and an array edited
in place. Each such method is tied to a specification function, or states its
property outright. The threads of the engine form a transition relation: each lock
section, each atomic counter operation and each store is one step of one thread,
and the environment picks the thread and the outcome.

Main results:

- The plan exists exactly for unique names, known references and an acyclic
  relation, and it is the least topological order.
- The checker's report is exact: bound, violations, shortest counterexamples,
  unreachable steps and transition count.
- A step is run in a schedule, and attempted by the engine, exactly when its `when`
  allows it and its `from_state` is absent, `*` or the role's state. A chain of steps
  whose states fit never deadlocks.
- In every interleaving a step starts after its dependencies ended well, no
  failure is lost, some thread can always move, and every run is finite. The
  bound on attempts is reached.
- Runs of the engine, up to their first failure, and schedules of the checker
  correspond exactly: a clean complete report carries over to the engine, every
  reported violation happens in some run, and the engine rejects a step exactly
  where a schedule makes it due in the wrong state.
- The parser accepts exactly the grammar's token lists.
- Loading succeeds exactly when all reachable files are sound and no import
  cycle is reachable, and it neither loses nor doubles what the files hold: what is
  missing is what an import does not ask for, what is added are modules named by
  aliases.
- Decoding undoes encoding, for sequential layouts and for number fields that
  share bytes at explicit offsets, and every checksum detects a change of any one
  covered byte. The cyclic checks are remainders of polynomials over GF(2).
- A decoded message holds a field exactly when the field's condition holds of the
  message, with as many values of its kind as it should.
- An edited frame shows the new value at its protocol's offset, and its checksums
  pass the receiver's test.

Where code and documentation differ, the model follows the code:

- The grammar in the head comment of `src/parser.rs` has no `null`, no quoted
  keys, no trailing array comma and no bodyless `import`. The parser has all four.
- `src/loader.rs:10-12` says that each file is included once. The code includes
  it once per instance key. The key joins alias and sorted `only` names into one
  text, so distinct requests can share it: no `only` and an empty one, or a name
  with a comma and the two names it looks like (`KeysCollide`). The second import
  then adds nothing. `SameKeyIff` says exactly when keys are equal.
- The checker lets a step with a dynamic `when` be skipped where its `from_state`
  does not hold, so that a clean report does not rule out a rejection
  (`DynamicGuardEscapes`). `RejectedIff` says exactly when a step is rejected.
- The engine passes over a step with `loop = 0` without its `to_state`, and the
  checker has no such case (`LoopZeroEscapes`). `FollowsIffNoGap` says exactly
  when runs still follow schedules. `RunIsSchedule` and `EngineScheduleIsRun` give
  the account with such steps read as skipped.

## Model

| member | source | states |
|---|---|---|
| Planner.MakePlan | src/graph.rs:70-203 | a plan is returned iff names are unique, references exist and the combined dependency relation is acyclic; it then follows the lexicographically least topological order; a duplicate or unknown name is the first one; a cycle error lists exactly the steps that run into a cycle |
| Planner.ResolveDeps | src/graph.rs:85-104 | every step gets its role predecessor first, then its other dependencies without repetition; roles in order of first appearance |
| Planner.DepNamesMeaning | src/graph.rs:89-104 | the resolved names are exactly the steps it depends on |
| Planner.IndexNames | src/graph.rs:71-83 | the index is complete, or the first repeated name is reported |
| Planner.FindUnknown | src/graph.rs:106-116 | the first reference to a missing step, in declaration order, if there is one |
| Planner.BuildGraph | src/graph.rs:118-131 | in-degrees and dependents, whatever order the hash map is visited in |
| Planner.KahnSort | src/graph.rs:133-166 | the sorted list is greedy by declaration index and stuck when it ends |
| Planner.GreedyIsLeast | src/graph.rs:146-166 | a complete greedy order is no later, lexicographically, than any topological order |
| Planner.StuckMeansCyclic | src/graph.rs:168-196 | a stuck list leaves out exactly the steps that run into a cycle |
| Planner.CompleteIffAcyclic | src/graph.rs:168-202 | a stuck list is complete iff the relation is acyclic |
| Planner.RolesKeepDeclarationOrder | src/graph.rs:93-103 | within a role every topological order keeps declaration order |
| Planner.PlanIsUnique | src/graph.rs:162-165 | the least order is unique, so hash-map iteration order cannot show |
| ModelChecker.MovesFor | src/model_check.rs:115-134 | the moves listed for one step are exactly its enabled ones |
| ModelChecker.CollectEnabled | src/model_check.rs:114-134 | the moves listed for a state are exactly the enabled ones |
| ModelChecker.Successor | src/model_check.rs:164-184 | the successor is the transition relation's result, with completion, role state and liveness flags |
| ModelChecker.CloserIsExpanded | src/model_check.rs:93-113 | everything closer to the start than the head of the queue has been expanded |
| ModelChecker.SearchCut | src/model_check.rs:93-187 | every schedule ends in an expanded state or crosses the queue |
| Explorer.AddViolation | src/model_check.rs:280-311 | one entry per violation key, with a shortest counterexample |
| Explorer.CheckSafety | src/model_check.rs:206-244 | every safety invariant false in the state is on record afterwards, and nothing unjustified is added |
| Explorer.CheckLiveness | src/model_check.rs:246-278 | every unvisited eventual state of a finished schedule is on record afterwards |
| Explorer.Explore | src/model_check.rs:85-203 | the report is exact: complete iff the reachable states are within the bound; each violation has a replayable counterexample and none is shorter; a complete report misses no violation; unreachable steps and transition count are exact |
| Checker.Check | src/model_check.rs:36-204 | zero bound, unplannable protocol with the planner's own fault, the first invariant with an unknown role and that role, or an exact report on the planned model |
| Guards.ScheduleIffLegal | src/model_check.rs:114-184 | a list of moves is a schedule iff every move is legal where it stands: its step is not done, all it depends on are, and it is skipped where its `when` may be false or run where its `when` may be true and its `from_state` is absent, `*` or the last `to_state` of its role |
| Guards.EnabledIffLegal | src/model_check.rs:115-134 | the same for the next move after any schedule |
| Guards.ChainNeverDeadlocks | src/model_check.rs:145-158 | a chain of one role whose `from_state`s follow its `to_state`s from `initial` is never in a deadlock |
| Guards.WitnessInWords | src/model_check.rs:135-278 | a violation is shown by a legal schedule iff its last `to_state`s are forbidden or miss an implied one, or all steps are done and the state to be reached was never taken, or steps are left and no move is legal |
| Guards.ReportInWords | src/model_check.rs:85-204 | every reported violation is shown by a legal schedule, and a complete report lists all that any of them shows |
| Guards.CleanInWords | src/model_check.rs:206-244 | after a clean complete report, at every point of every legal schedule, no role's last `to_state` is a forbidden one and every implied one is taken |
| Guards.DecisionIs | src/engine.rs:1035-1075 | in a run, a step that is decided on is attempted iff its `when` says so, it loops and its `from_state` is absent, `*` or the role's state; otherwise it is skipped or refused, each exactly when |
| Guards.StartsInitial | src/engine.rs:2817 | before its first step every role is in state `initial` |
| Checker.HistoryIsExact | src/model_check.rs:77-82 | a liveness flag is set iff the schedule visited the invariant's state |
| Checker.CleanMeansSafe | src/model_check.rs:206-244 | after a complete report without violations, safety invariants hold at every point of every schedule |
| Checker.CleanMeansLive | src/model_check.rs:135-160 | a schedule that cannot be extended finished all steps and visited every eventual state |
| Checker.CleanMeansFinishable | src/model_check.rs:135-160 | every schedule can be continued until all steps are done |
| Scheduler.RunKeepsInv | src/engine.rs:1025-1188 | the invariant on threads, shared state and outcomes holds in every reachable state |
| Scheduler.StartedAfterDependencies | src/engine.rs:1029-1041 | a started step has every declared and same-role dependency ended in success or skip, or run elsewhere |
| Scheduler.StartIsReleased | src/engine.rs:1029-1034 | the failure test after the wait is enough: a failed step, though marked done, releases nobody |
| Scheduler.FailureIsFinal | src/engine.rs:2973-2984 | the first failure stays; completed steps, counter and trace only grow |
| Progress.SomeoneIsReady | src/engine.rs:3008-3032 | without a failure and with open steps, some thread's step has all dependencies done |
| Progress.NeverStuck | src/engine.rs:3008-3032 | while a thread is alive some thread can move |
| Progress.WaiterLeaves | src/engine.rs:3025-3027 | after a failure a waiting thread can leave |
| Progress.QuietEndIsComplete | src/engine.rs:1025-1189 | all threads gone without a failure means all steps complete |
| Progress.RunsAreFinite | src/engine.rs:1077-1183 | every run is finite, bounded by the rank of the initial state |
| Progress.MaximalIffExited | src/engine.rs:786-814 | a run cannot be continued iff all its threads have left |
| Progress.EveryRunEnds | src/engine.rs:786-814 | every run can be continued until all threads have left |
| Progress.AttemptBound | src/engine.rs:1077-1183 | at most loop * (1 + max(retransmit, timer retransmit) + retry) attempts at a step, in every interleaving |
| Tracing.RunKeepsTrace | src/engine.rs:2917-2959 | numbers stamped or stored are distinct and dense, and ordered along dependencies, in every reachable state |
| Tracing.StartedAfterChain | src/engine.rs:1029-1034 | a started step has its whole chain of dependencies completed |
| Tracing.JoinedTrace | src/engine.rs:816-817 | the joined, sorted trace is numbered 0..n-1 with n = min(counter, max_trace); events recorded while a dependency runs precede those of its dependent, transitively |
| SimObject.Sim.SetFailure | src/engine.rs:2973-2984 | the first failure wins |
| SimObject.Sim.MarkDone | src/engine.rs:3000-3004 | one step joins the completed set |
| SimObject.Sim.Record | src/engine.rs:2917-2959 | counts the event, then stores it or raises the trace limit |
| SimObject.Sim.Ready | src/engine.rs:3010-3021 | true iff all dependencies are complete |
| SimObject.Sim.Atomic | src/engine.rs:2892-3004 | the shared part of every atomic step of the interleaving model, done with the operations above |
| SimObject.RunBody | src/engine.rs:1077-1183 | the loop, retransmit and retry nest takes the course of the interleaving model and stays within the attempt budget; timed out `k` times in every iteration it succeeds after `loop * (k + 1)` attempts iff `k` is at most the larger of retransmit and timer retransmit, plus retry if selected, and otherwise fails one attempt later |
| SimObject.TimeoutsFrom | src/engine.rs:1098-1165 | the same from any point of an iteration |
| SimObject.FailuresFrom | src/engine.rs:1150-1165 | other failures are retried up to `retry` times |
| SimObject.FailsAtOnce | src/engine.rs:1098-1183 | a failure that is neither resent nor selected, or a retransmission that fails, ends the step at once |
| AttemptRuns.CourseRun | src/engine.rs:1077-1183 | from any state in which a thread attempts a step, for all answers of the environment, some run takes that course with as many attempts |
| AttemptRuns.BudgetReached | src/engine.rs:1077-1183 | so that the attempt budget is reached in runs |
| SimObject.RunStep | src/engine.rs:1077-1188 | the attempts and what is recorded after them, as the model's phases: the step is done, and a failure is on record unless all attempts succeeded |
| Refinement.RepresentedIsPlanned | src/engine.rs:768-785 | the checker's model is the plan the engine runs |
| LoopZero.RunIsSchedule | src/engine.rs:1025-1188 | every run up to its first failure follows a schedule of the checker, `loop = 0` steps read as skipped, with room in the trace for its skips |
| LoopZero.EngineScheduleIsRun | src/engine.rs:1025-1188 | and every such schedule is what some run follows |
| LoopZero.FollowsIffNoGap | src/engine.rs:1044-1062 | all failure-free runs follow the checker's own schedules iff no run passes over a `loop = 0` step whose `from_state` fails or whose `to_state` would change the state |
| LoopZero.FollowsUnlessGap | src/engine.rs:1025-1188 | without such a step, the schedule of a run, state by state |
| LoopZero.HarmlessLoops | src/engine.rs:1044-1062 | it is enough that every `loop = 0` step may be skipped or touches no state |
| Promises.EngineIsSafe | src/engine.rs:1025-1188 | a clean complete report makes every safety invariant hold in every state of every failure-free run |
| Promises.EngineIsLive | src/engine.rs:1184-1188 | such a run, once over, has visited every eventual state |
| Promises.NeverRejected | src/engine.rs:1064-1075 | and no step with a static `when` is refused for its `from_state` |
| Promises.RejectedIff | src/engine.rs:1064-1075 | some run rejects a step iff some schedule makes it due, allowed to run and its role in the wrong state |
| Promises.WitnessIsRun | src/model_check.rs:280-311 | every violation that a realizable schedule (no `loop = 0` step run, skips within the trace limit) ends in happens: a run follows the schedule and breaks the invariant, finishes without the eventual state, or comes to a step in the wrong state |
| Promises.CounterexampleIsRun | src/model_check.rs:280-311 | so does every reported violation, along its counterexample, when no step has `loop = 0` and the trace has room for one event per step |
| Promises.DeadlockIsRejected | src/model_check.rs:145-158 | a deadlock is a run in which the engine rejects a step |
| CheckerGaps.DynamicGuardEscapes | src/model_check.rs:119-133 | a protocol with a dynamic `when` whose every complete report is clean, and a run of it that ends in a state rejection |
| CheckerGaps.LoopZeroEscapes | src/engine.rs:1044-1062 | a `loop = 0` step ends in a state no schedule of the checker reaches |
| Parser.TokenParser.Bump | src/parser.rs:338-341 | the position advances by one and never passes the end marker |
| Parser.TokenParser.ParseExpr | src/parser.rs:448-471 | reads what the specification reads from the same position, on success and on failure |
| Parser.TokenParser.ParseArray | src/parser.rs:473-499 | likewise, for array elements |
| Parser.TokenParser.ParseObject | src/parser.rs:501-537 | likewise, for object pairs |
| Parser.TokenParser.ParseBlock | src/parser.rs:352-392 | likewise, for a block or a bodyless import |
| Parser.TokenParser.ParseBody | src/parser.rs:393-446 | likewise, for attributes and child blocks |
| Parser.ParseFile | src/parser.rs:54-67 | likewise, for a whole file |
| ParserCorrect.AcceptsTheGrammar | src/parser.rs:3-15 | a token list is accepted iff the grammar derives it, and the result is what the derivation denotes |
| ParserCorrect.DerivedIsParsed | src/parser.rs:54-67 | the tokens of every derivation parse to its meaning and stop at the end marker |
| ParserCorrect.Unambiguous | src/parser.rs:3-15 | two derivations of one token list denote the same blocks |
| ParserCorrect.PairsMeaning | src/parser.rs:501-537 | an object's map holds exactly its pairs |
| ParserCorrect.RenderFile | src/parser.rs:54-67 | every block tree without raw bytes has a rendering with quoted keys that parses back to it; with identifiers for block names it holds only tokens the lexer delivers |
| Paths.Normalize | src/loader.rs:36-60 | the loop over path pieces computes the resolved path or the error of the first refused piece |
| Paths.PathMeaning | src/loader.rs:36-60 | for the pieces of base and path between slashes of either kind: empty pieces and `.` do nothing, `..` leads up, other pieces lead down; the path resolves to the names never left again, and each error is the first piece that leads above the root, the first name with a colon, or nothing left |
| Paths.TextIsCut | src/loader.rs:42-44 | every text has such pieces |
| Paths.ResolvesIffInside | src/loader.rs:44-59 | a path resolves iff no prefix climbs above the bundle root, no name holds a colon and something is left |
| Paths.TargetIsNormal | src/loader.rs:58 | what resolves is plain names joined by slashes |
| Paths.NormalIsFixed | src/loader.rs:26-30 | normalizing a normal path changes nothing |
| Imports.SameKeyIff | src/loader.rs:178-184 | two imports share a key iff aliases agree and the sorted names split into the same pieces, or one alias runs over the mark into the other's names |
| Imports.PlainKeysIff | src/loader.rs:178-184 | for aliases without semicolon and nonempty names without comma: iff aliases and sets of names agree |
| Imports.KeysCollide | src/loader.rs:178-184 | distinct requests that share a key |
| Imports.InstanceIsOfTheSet | src/loader.rs:178-184 | the instance key does not depend on order or repetition of the `only` names |
| Loader.CheckImport | src/loader.rs:99-117 | the checks of an import block in their order |
| Imports.CheckMeaning | src/loader.rs:99-117 | each refusal exactly when it applies: no path, an attribute other than `as` and `only`, an `only` that is no array or holds no names, a path that does not resolve |
| Loader.RetainExact | src/loader.rs:120-128 | a protocol or case table stays, as often as it is there, iff it has a first label and `only` names it; everything else stays |
| Loader.RetainInOrder | src/loader.rs:120-128 | in its order |
| Loader.ImportLoader.Load | src/loader.rs:63-87 | result, files opened and restored stack as specified, for every bundle |
| Loader.ImportLoader.Expand | src/loader.rs:89-151 | likewise, for a list of blocks |
| Loader.ImportLoader.ExpandBlock | src/loader.rs:98-148 | likewise, for one block or import |
| LoaderCorrect.LoadsIffSound | src/loader.rs:63-151 | loading succeeds iff every reachable file is present, parses and has sound imports, and no import cycle is reachable |
| LoaderCorrect.ErrorsAreReal | src/loader.rs:70-81 | a cycle error names a closed import chain reachable from the root; every other error names a reachable file with that fault |
| LoaderCorrect.LoadedIsExpanded | src/loader.rs:75-77 | no import block survives at any depth, and each file is expanded at most once per instance key |
| LoaderCorrect.LoadingIsIdempotent | src/loader.rs:89-151 | loading the result again gives it back |
| LoaderCorrect.NormalizeSources | src/loader.rs:26-29 | a bad path among the sources, or a bundle in which every file is a source whose path leads there |
| LoaderCorrect.NormalizedOnce | src/loader.rs:26-29 | with one spelling per file the bundle is unique |
| LoaderCorrect.LoadSources | src/loader.rs:22-34 | all of this for sources and root as they are handed in |
| LoaderContents.LoadingConserves | src/loader.rs:89-151 | every node of every opened file comes out as often as the file was opened, apart from dropped blocks, and the rest are modules; a dropped block is a protocol or case table whose first label is missing or not in the `only` of an import of an opened file, and a module is labelled with the `as` or second label of one |
| LoaderContents.LoadingIsExact | src/loader.rs:89-151 | without `only` nothing is dropped, without aliases nothing is added |
| LoaderContents.ImportMeaning | src/loader.rs:98-143 | an import stands for the blocks of the file it names, less the protocols and case tables it does not ask for, in one module if it has an alias |
| LoaderContents.ExpandInOrder | src/loader.rs:97-150 | blocks are expanded in their order, each in its place |
| Imports.StringsMeaning | src/loader.rs:163-172 | `only` is a list of names iff all its values are strings |
| Imports.BaseMeaning | src/loader.rs:83 | the directory of a file is what stands before its last slash |
| Integers.IntegerFromBytes | src/dynamic_schema.rs:568-593 | the loop reads the bit field of the number the bytes spell |
| Integers.BytesBack | src/dynamic_schema.rs:595-609 | a number that fits is read back from its bytes, in both byte orders |
| Integers.BigIsPositional | src/dynamic_schema.rs:582-585 | big-endian bytes weigh by position |
| Integers.LittleIsReversedBig | src/dynamic_schema.rs:578-581 | little-endian is big-endian reversed |
| Integers.FieldLimits | src/dynamic_schema.rs:568-609 | at most eight bytes and 64 bits are read; a number is written iff it fits one to eight bytes |
| Integers.FieldBack | src/dynamic_schema.rs:568-609 | a value that fits its bits survives shift, store, load and mask |
| Integers.SignedBack | src/dynamic_schema.rs:416-426 | two's complement of any width is undone |
| Crc.Compute | src/dynamic_schema.rs:770-803 | the three checksum loops compute the checksum that the rows below are about |
| CrcPolynomial.Crc16IsRemainder | src/dynamic_schema.rs:772-785 | the 16-bit check is the remainder of ones * x^(8n) + message * x^16 modulo x^16 + x^12 + x^5 + 1 |
| CrcPolynomial.Crc32IsRemainder | src/dynamic_schema.rs:786-799 | the 32-bit check is that of ones * x^(8n) + message * x^32 modulo the generator of degree 32, bytes lowest bit first, reflected and complemented |
| CrcPolynomial.RemainderLaw | src/dynamic_schema.rs:772-799 | long division leaves what a multiple of the generator leaves |
| CrcPolynomial.KnownValues | src/dynamic_schema.rs:772-799 | the checks of no bytes and of the digits 1 to 9 |
| Crc.InternetVerifies | src/packet.rs:1613-1633 | the check of no bytes is 0xffff; appended to a message of whole words it brings the check to zero |
| Crc.WordsAdd | src/packet.rs:1613-1633 | word sums add up, from the front |
| Crc.ByteChangeDetected | src/dynamic_schema.rs:770-803 | for all three checksums, changing any one byte of a message of any length changes the checksum |
| Crc.InternetEqualIff | src/packet.rs:1613-1633 | two messages have the same Internet checksum iff their word sums agree modulo 0xffff and are both zero or both not |
| Crc.InternetMissesTwoChanges | src/packet.rs:1613-1633 | so that two changed bytes can cancel |
| CodecLoops.EncodeMessage | src/dynamic_schema.rs:70-84 | the encoder's loops write what the specification writes |
| CodecLoops.DecodeMessage | src/dynamic_schema.rs:31-68 | the decoder's loops read what the specification reads |
| CodecLoops.EncodeOne | src/dynamic_schema.rs:182-275 | likewise, for one field with condition, offset, count and items |
| CodecLoops.DecodeOne | src/dynamic_schema.rs:95-168 | likewise |
| CodecLoops.EncodeValue | src/dynamic_schema.rs:216-247 | likewise, for one item: nested, switched, checksum or scalar |
| CodecLoops.DecodeOneItem | src/dynamic_schema.rs:119-159 | likewise |
| RoundTrip.DecodeUndoesEncode | src/dynamic_schema.rs:70-278 | a successful encode decodes to exactly the present fields with the supplied values, every checksum valid, everything consumed and no unknown bytes |
| RoundTrip.RoundFields | src/dynamic_schema.rs:85-278 | the same for every field list, at any depth and position in the buffer |
| RoundTrip.ScalarBack | src/dynamic_schema.rs:399-566 | uint, int, bool, bytes and ascii values are read back, with or without terminator |
| RoundTrip.LengthBackIff | src/dynamic_schema.rs:289-306 | for every kind of terminated field, the length read is the length written iff its bytes meet the terminator first at their end |
| RoundTrip.ChecksumTextIff | src/dynamic_schema.rs:432-437 | an ascii checksum decodes iff its bytes are seven-bit |
| RoundTrip.NestedTerminatorLost | src/dynamic_schema.rs:216-222 | an object that does not end in its terminator is encoded and not decoded |
| RoundTrip.TextChecksumLost | src/dynamic_schema.rs:242-244 | an ascii checksum that is encoded and not decoded |
| RoundTrip.TerminatedLength | src/dynamic_schema.rs:289-306 | the length read is the length written iff the payload meets its terminator first where it was appended |
| RoundTrip.MatchIsLocal | src/dynamic_schema.rs:295-304 | what follows a first terminator match does not move it |
| RoundTrip.ChecksumBack | src/dynamic_schema.rs:152-158 | a checksum field written by the encoder decodes as valid |
| RoundTrip.CorruptionIsReported | src/dynamic_schema.rs:152-158 | a valid checksum field becomes invalid when any one covered byte changes |
| Conformance.DecodedConforms | src/dynamic_schema.rs:85-168 | a decoded message holds a field iff its condition is absent, its named value equals (differs from) the literal, or the named flag is true (false); each field holds as many values as counted, of its format and length, nested objects and taken cases likewise; nothing else is there |
| Conformance.EncodedConforms | src/dynamic_schema.rs:170-278 | only messages that hold all this, checksums aside, are encoded |
| Conformance.RoundTripPresence | src/dynamic_schema.rs:70-278 | after a round trip exactly the fields are there whose condition held of the message encoded |
| Conformance.WhenMeaning | src/dynamic_schema.rs:357-387 | a condition on a missing field, or on no flag where one is needed, is an error; any other says what it says |
| Conformance.CountMeaning | src/dynamic_schema.rs:280-287 | the count is the number given or the value referred to |
| Conformance.LengthMeaning | src/dynamic_schema.rs:320-336 | the declared length is the length given or the value referred to, adjusted |
| Conformance.SelectedMeaning | src/dynamic_schema.rs:127-143 | a switch takes the first case whose key is the value's text and, if there is none, the default |
| Conformance.KeyMeaning | src/dynamic_schema.rs:631-639 | the text of a number is its decimal form, clamped to 64 bits; of a flag true or false |
| Conformance.PayloadIff | src/dynamic_schema.rs:456-566 | a value can be encoded iff it is of its field's format and within its bits |
| Conformance.FirstMatchMeaning | src/dynamic_schema.rs:295-304 | a terminator counts at its first place, if it has one |
| Conformance.VerdictMeaning | src/dynamic_schema.rs:152-158 | a checksum read is valid iff the checksum of what stands before it, or of its range, is the number its bytes spell |
| BitFields.PlacedMerges | src/dynamic_schema.rs:257-272 | a narrow field is merged into its bytes and no other byte changes |
| BitFields.MergedFieldReads | src/dynamic_schema.rs:263-269 | a bit field merged into bytes whose bits in its place are clear reads back |
| BitFields.MergedFieldKeeps | src/dynamic_schema.rs:263-269 | it leaves every field on other bits of the same bytes as it was |
| Layouts.GridRoundTrip | src/dynamic_schema.rs:85-278 | number fields at explicit offsets or in sequence, sharing bytes in any way as long as no two own the same bit: a successful encode decodes to the same values, everything consumed and nothing left over |
| Layouts.GridEncode | src/dynamic_schema.rs:257-272 | after encoding every field's bits hold its number |
| Layouts.WrittenFrame | src/dynamic_schema.rs:257-272 | writing a field changes no bit it does not own, whether merged or overwritten |
| Layouts.ReadCell | src/dynamic_schema.rs:568-593 | a field reads the number its bits hold |
| Minimizer.TryCuts | src/native_fuzz.rs:364-375 | a cut that preserves, or with one-byte chunks a proof of 1-minimality |
| Minimizer.MinimizeBytes | src/native_fuzz.rs:354-382 | terminates; a subsequence of the input that keeps the predicate; 1-minimal if two or more bytes are left |
| TraceDiff.FillTable | dashboard/workbench-tools.js:16 | the table holds the best pairing size for every pair of suffixes |
| TraceDiff.BestIsBound | dashboard/workbench-tools.js:16 | no order-preserving pairing of equal keys is larger |
| TraceDiff.Align | dashboard/workbench-tools.js:16 | the rows project to both traces and match as often as the table says; each row is the one due at its place, the right side first on a tie |
| TraceDiff.DiffTraces | dashboard/workbench-tools.js:16 | an optimal alignment that conserves every event of both traces; the counts of added, removed and changed rows |
| TraceDiff.EntryFits | dashboard/workbench-tools.js:16 | no table entry exceeds the shorter trace, so that 32 bits hold it |
| TraceDiff.UnchangedMeansEqual | dashboard/workbench-tools.js:15-16 | the events of a matched row are equal iff the row is unchanged and their joined keys split at the same places |
| TraceDiff.PlainKeysSplitAlike | dashboard/workbench-tools.js:15 | they do when roles and step names hold no separator |
| TraceDiff.UnlikeEventsMatch | dashboard/workbench-tools.js:15-16 | otherwise an unchanged row can join two unlike events |
| Reassembly.Reassemble | dashboard/advanced-tools.js:7 | the bytes are the covered positions in order, the gaps exactly the maximal uncovered ranges between them |
| Reassembly.FirstWins | dashboard/advanced-tools.js:7 | where segments overlap, the byte is that of the segment that starts first, and of those that start together of the one that arrived first |
| Reassembly.StreamRestored | dashboard/advanced-tools.js:7 | for slices of one stream, with duplicates and overlaps in any order, the bytes are that stream restricted to what is covered |
| Reassembly.OrderIrrelevant | dashboard/advanced-tools.js:7 | for slices of one stream, bytes, gaps and bounds do not depend on arrival order |
| HeaderChecksum.Finish | dashboard/advanced-tools.js:15 | the fold with signed 32-bit shifts ends for every sum, and below 2^31 it is the exact end-around fold |
| HeaderChecksum.SumsFit | dashboard/advanced-tools.js:15 | with a complete header the running sums stay below 2^31 |
| HeaderChecksum.AddWords | dashboard/advanced-tools.js:15 | the sum of the padded big-endian words |
| HeaderChecksum.RecalculateChecksums | dashboard/advanced-tools.js:15 | only checksum bytes change; with a complete header both one's-complement sums fold to 0xffff, and a UDP checksum is never zero |
| HeaderChecksum.EditHeader | dashboard/advanced-tools.js:14 | each error exactly when it applies, with the frame unchanged; otherwise the field is replaced and the checksums are repaired |
| Frames.EditedFields | dashboard/advanced-tools.js:14 | an edited IPv4, TCP or UDP frame shows the new value at its protocol's offset and is unchanged outside that field and the checksums |
| Frames.EditedChecksums | dashboard/advanced-tools.js:15 | its header words, and pseudo-header and segment words, add up to 0xffff with end-around carry; a UDP checksum is not zero |
| Frames.EditedAddress | dashboard/advanced-tools.js:14 | an edited Ethernet address, and nothing else |
| Frames.BadPartsIff | dashboard/advanced-tools.js:14 | an address is four numbers from 0 to 255 |
| Frames.HasIpv4Iff | dashboard/advanced-tools.js:14 | there is an IPv4 header iff twenty bytes follow its type, behind an optional tag |
| HeaderChecksum.FieldReadsBack | dashboard/advanced-tools.js:14 | the edited field then reads back as the value given |

## Left out

- Sockets, TLS, QUIC, WebSocket, raw interfaces, fault injection, the clock and
  plugins: an attempt at a step is a nondeterministic outcome with any number of
  events, and a runtime check is a nondeterministic answer.
- Engine: a role without an inbox, a panicking thread, a failing transport
  shutdown, retry delays, and event contents other than number and running step.
- Engine: the number of events of one attempt has a common bound, which may be
  any number.
- The role name `scheduler` of a runtime failure noticed while waiting: the
  failure carries the waiting role instead.
- Checker: message texts of violations.
- Parser.TokenParser.ParseExpr: failures carry no message, line or column.
- Parser: the lexer. Token lists end in one end marker, as it delivers them.
  Numbers are integers.
- Loader.CheckImport: an unknown attribute is reported without its name, which in
  the source depends on hash-map order.
- LoaderCorrect.NormalizeSources: where two spellings lead to one file, either
  source may be taken; in the source that depends on hash-map order.
- Loader: loading from the file system, which repeats the same recursion on
  canonical paths.
- Loader: the contents of two aliases of one file are not compared; a nested
  import is expanded under the first one only.
- Codec: enum fields, transforms, and the formats hex, utf8 and ipv4, where
  several spellings share one decoded form; hex text for a bytes field.
- Codec: the text syntax of `when` and of checksum ranges; both are parsed here.
- Codec: a switch on raw bytes, an array or an object without `value` is refused;
  its display text is not modelled.
- Codec: numbers are exact integers, which covers the integers a double holds.
  Error texts and the size of machine words for lengths are not modelled.
- Codec: decoding with out-of-band context values.
- RoundTrip.DecodeUndoesEncode: references lead to earlier present fields that
  are plain values, not to the `value` member of a nested object.
- Conformance.DecodedConforms: the fields of one level have distinct names, as the
  object that declares them gives them.
- Layouts.GridRoundTrip: explicit offsets for single numbers of declared length
  only, not for repeated, terminated, nested or checksum fields.
- Reassembly.Reassemble: grouping of packets into flows, packet parsing, and
  sequence numbers that wrap around.
- HeaderChecksum.EditHeader: parsing of hex and of the value text; values are
  integers already.
- The topological sorts of `src/orchestrate.rs` and `dashboard/order.js`, which
  would repeat the planner's proof.
- Reports, the command line, the HTTP server, storage, the user interface,
  exporters and importers.
