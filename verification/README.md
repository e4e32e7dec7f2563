# Verified models of the C-to-Rust translation assessor

The repository translates C programs to Rust and scores the translations. This project models
the algorithms at its core and proves what they promise.

| files | what they model |
|---|---|
| `CsvSpec`, `CsvParser`, `CsvWriter`, `CsvRoundTrip`, `CsvReading`, `CsvStops`, `CsvRuns` | the Rust port of libcsv: a resumable parser that takes a byte at a time into a buffer that grows, and a quoting writer in two forms |
| `Digraph`, `TarjanCore`, `TarjanMoves`, `TarjanState` | strongly connected components, the invariant of Tarjan's search, and the variables both searches share |
| `TarjanIterative`, `TarjanRecursive` | the search over functions with an explicit work stack, and the recursive one over types |
| `Condensation`, `Kahn`, `CallOrder`, `TypeOrder`, `SplitClosure` | the condensation, its drain, the orders built on it, and the closures that make split files |
| `ExprTree`, `ExprNumbering`, `ExprRuns`, `ExprFlips`, `ExprFlipRuns`, `ExprGraph`, `Canonicalize` | rewriting of KQuery expressions in a graph whose operand order is the order of its node ids, and which expressions it can damage |
| `EditDistance`, `Distance` | the Levenshtein table and its use, and the score of two sets of graphs |
| `AgentProtocol` | the translation pipeline around an agent that may do anything |
| `HarnessTypes`, `HarnessWalk`, `HarnessEnds`, `HarnessChains`, `HarnessLimits`, `HarnessSymbolic`, `SaturatingCast` | the Symbolizer pass: the walk that gives symbolic arguments something to point to, where it cannot end or leaves a pointer unbound, and the lowering of saturating casts |
| `Saturation`, `ByteBuffers`, `TagPropagation`, `IrSignature` | growing sets in rounds, alias closure, tag propagation, and the IR signature printer with its argument counter |

Where the source changes things step by step, the model does too: `Parser`, `Sink`, `Variables`,
`TypeDependencyGraph`, `Visitor`, `ExpressionGraph`, `Translator`, `Usage` and `Harness` are
classes whose methods are proved against functions of their old state, and the laws are proved
about those functions. `Wrappers` holds `Option`.

## How the main results fit together

* **CSV.** `Parser.Parse` is the fold `CsvSpec.Parse` of one transition per byte. About that
  fold: however the input is cut into chunks the result is the same, and a table written with
  `Quoted` reads back exactly if and only if the quote, the delimiter and the terminator do not
  clash. What is not written that way is read too: `CsvReading.InputRead` says what an input of plain,
  empty and quoted fields, with blanks around them, blank lines and an open last row, logs, from the
  bytes alone. As long as memory lasts, `CsvStops` says at which byte a call stops. The invariant
  `CsvSpec.Inv` holds over every run in which options that need a zero byte come while there is
  room for it, so every subtraction and index in the class is in range. `FWrite2` and `Write2` both produce prefixes of `Quoted`.
* **Order.** Both searches keep `TarjanCore.Inv` at every step, and both return
  `ComponentsOf`: the maximal strongly connected components, each once, callees first. The
  drain of the condensation then lists every component once, after all it depends on.
* **Expressions.** `Canonicalize` keeps the graph a reading of a tree, ends, and leaves no redex.
  `RiskSomewhere` tells from the expression alone whether some run can put the arms of a Select in
  the wrong order: `ExprFlipRuns.SomeRunFlipsIff`, for every expression numbered as the parser and
  `deep_copy` number it. Without that risk `ExpressionGraph.Run` keeps the value.
* **Agent.** `UnitAcceptedIff` and `BatchAcceptedIff` say exactly when a unit is accepted and with
  which file. Whatever the agent does, a checked step keeps what earlier steps established. Appending
  a type is the one step that is not checked: a run can lose no function exactly when no append gets
  past its guard (`NeverShrinks`), and loses none when only closed text is appended (`RunsAreSafe`).
* **Harness.** `Ends` follows the calls of the walk, and every method of the walk asks for no more
  than that its own calls end. They end on every type if and only if every cycle of types crosses a
  field that is a pointer to a struct (`WalkEndsIff`), and where structs have sizes a type has a
  harness only if its walk ends (`HarnessHalts`). The finished object graph is described slot by
  slot (`SlotIs`), with nothing but data pointers written (`WrittenIff`); every walk along its
  pointers ends, and `SomeUnboundIff` tells from the types whether some
  pointer in it stays unbound.

## Where code and documentation differ

* `csv_fini` submits a pending field in states 1 and 2. In state 3, after a closing quote, the last
  field of a row without a terminator is dropped (`UnterminatedRowLosesItsLastField`), and that is the
  only state in which one is (`CsvSpec.LostIff`).
* A parser made by `new` has no buffer, and `csv_increase_buffer` never allocates a first one, so
  it cannot take a byte (`NoBuffer`). With a buffer, and memory, all input is taken unless strict
  mode refuses a byte of it (`AllTakenIff`).
* A new parser counts line ends as whitespace. Where no field has begun whitespace is skipped before
  row ends are looked for, so a row that ends in an empty field is not ended (`EmptyLastFieldIff`).
* `canonicalize_graph` is called semantics-preserving. Rule 2 inside an arm that rule 1 exchanged
  can put the arms back in the wrong order (`RunCanChangeMeaning`): rule 1 exchanges only the ids
  of the two roots, and rule 2 then brings up an id from below. Some run does so if and only if some
  Select has a condition that can be negated and a false arm that can be doubly negated, or a
  condition that can be doubly negated and a true arm that can be four times negated
  (`AtRisk`, `SomeRunFlipsIff`). In a run that takes all negations off a condition before it
  rewrites the arms, an odd number of them and a doubly negated false arm decide
  (`ConditionFirstIff`). The value of that Select survives if and only if its two arms have
  the same value (`FlipKeepsValueIff`).
* `_kids` says an operator's node is created before its operands'. Only the order among operands
  matters to it, and that is what `Good` asks for.
* `_alias_closure` calls its twenty rounds a defence against pathological input. They suffice for
  twenty-one names (`FewNamesComplete`) and can miss an alias with twenty-two (`ChainMissed`). A name
  is found if and only if some walk to it from the seed, along the assignments in their order in the
  text, turns back fewer than twenty times (`FoundIff`).
* `propagate_byte_buffer_tags` can report a field as tagged and tag none of its lines, when the
  move stands only in another field's list (`ReportedWithoutTag` is such a case) or is not the first
  move on its line (`NewFieldMarkedIff`).
* The lowering of the saturating casts is called equivalent to them. It is, except at a bound
  that the float format rounds (`LoweringSaturates`), for example at one input of `f32` to `i32`
  (`SingleToInt32Fails`) and of `f64` to `i64` (`DoubleToInt64Fails`). Besides the maximum, a signed minimum beyond the largest float (half
  precision, `HalfToInt32Fails`) is such a bound.
* `_agentRun` raises when `rust/out.rs` is gone and the reply has no fenced block: it strips a
  file it does not have (`RunEnds` says when). `agentAppendType` is the only step that is not
  checked; when it appends anything there is a way to read functions under which one is lost
  (`AppendLoses`), as when it closes a comment that the file left open.
* Below a recursion boundary `null_boundary_pointers` stops after five levels of by-value nesting
  and leaves what is deeper symbolic (`SymbolicIff`, `SomeUnboundIff`, and `BuildNested` for a list node with a deep
  payload). A cycle of types that crosses no field that is a pointer to a struct, through pointers
  to pointers or by-value members of any length, never meets the boundary check, and the walk has
  no end (`NoEndOnCycle`).

## Model

| member | source | states |
|---|---|---|
| `CsvSpec.GrowBy` | src/Link/csv_link/alllink.rs:530-541 | A request that is met is for more than there was and at most the first; when none is, the first and the last, for one byte more, were refused |
| `CsvSpec.GrowByHalves` | src/Link/csv_link/alllink.rs:530-541 | What is met is the first of the successive halvings that can be supplied, every larger one having been refused |
| `CsvSpec.GrowByFails` | src/Link/csv_link/alllink.rs:537-541 | None is met if and only if no halving above zero can be supplied |
| `CsvSpec.Increase` | src/Link/csv_link/alllink.rs:513-548 | Growth is strict, stays within `usize`, and never makes a first buffer; its failures are the two memory errors |
| `CsvSpec.Step` | src/Link/csv_link/alllink.rs:217-503 | One byte in any of the four states keeps the invariant that relates position, spaces and the quoted flag, and only adds events; what the bytes read as is `CsvReading.InputRead` |
| `CsvSpec.Feed` | src/Link/csv_link/alllink.rs:205-215 | A byte is taken only with room in the buffer; growth keeps the invariant, and without a buffer no byte is taken |
| `CsvSpec.Parse` | src/Link/csv_link/alllink.rs:171-511 | The invariant holds after any input; stopping short leaves a failure status |
| `CsvSpec.Fini` | src/Link/csv_link/alllink.rs:42-103 | Keeps the invariant; fails exactly for an unclosed quoted field in strict mode with strict finish, and otherwise logs exactly the begun field and the end of its row, none after a possible closing quote, and is back at the start of a row |
| `CsvSpec.LostIff` | src/Link/csv_link/alllink.rs:60-63 | Bytes of a field are dropped by a successful finish if and only if the field may have ended at its quote |
| `CsvParser.NoBuffer` | src/Link/csv_link/alllink.rs:531-534 | Without a buffer every non-empty input is refused at its first byte, with the status of the failed growth and nothing logged |
| `CsvParser.Parser.constructor` | src/Link/csv_link/alllink.rs:552-598 | The state of a new parser, without a buffer |
| `CsvParser.Parser.SetOpts` | src/Link/csv_link/alllink.rs:626-632 | Changing options changes nothing else, and keeps the invariant if and only if an entry byte still has room |
| `CsvParser.Parser.IncreaseBuffer` | src/Link/csv_link/alllink.rs:513-548 | The halving loop is `Increase`: a new array with the old bytes, or only a new status |
| `CsvParser.Parser.Submit` | src/Link/csv_link/alllink.rs:225-245 | The end of a field logs the entry without its trailing blanks, puts a zero byte behind it if asked to, and resets the entry |
| `CsvParser.Parser.TakeOutside` | src/Link/csv_link/alllink.rs:221-307 | States 0 and 1 follow the specified transition on the in-place buffer |
| `CsvParser.Parser.TakeInField` | src/Link/csv_link/alllink.rs:308-410 | State 2 follows the specified transition on the in-place buffer |
| `CsvParser.Parser.TakeAfterQuote` | src/Link/csv_link/alllink.rs:411-501 | State 3 follows the specified transition on the in-place buffer |
| `CsvParser.Parser.ParseByte` | src/Link/csv_link/alllink.rs:205-503 | One iteration of the loop is `Feed`, with every write in bounds |
| `CsvParser.Parser.Parse` | src/Link/csv_link/alllink.rs:171-511 | The whole call is the fold `CsvSpec.Parse`, and returns the number of bytes taken |
| `CsvParser.Parser.Fini` | src/Link/csv_link/alllink.rs:42-103 | Is `CsvSpec.Fini` on the state, with the same return |
| `CsvRuns.RunKeepsInv` | src/Link/csv_link/alllink.rs:611-652 | Over every sequence of parse, finish and setter calls: every state satisfies the invariant if and only if options that ask for a zero byte behind the entry come while there is room for one, and then the log only grows |
| `CsvRuns.SettingsLast` | src/Link/csv_link/alllink.rs:611-652 | Along every such run each setting is what the last call of its setter made it |
| `CsvRoundTrip.ParseConcat` | src/Link/csv_link/alllink.rs:180-215 | Parsing `a + b` is parsing `a` and, if all of it was taken, parsing `b` from there, errors included |
| `CsvRoundTrip.ChunkingIndependence` | src/Link/csv_link/alllink.rs:506-510 | Any division of the input into calls gives the state, log and count of one call |
| `CsvRoundTrip.TableRoundTrip` | src/Link/csv_link/alllink.rs:205-511 | Every table of non-empty rows of any fields, written quoted and terminated, reads back as exactly its fields and row ends |
| `CsvRoundTrip.ClashMisreads` | src/Link/csv_link/alllink.rs:671-719 | With clashing special characters the table of one empty field does not read back |
| `CsvRoundTrip.RoundTripIffGoodChars` | src/Link/csv_link/alllink.rs:205-511 | All tables read back if and only if the quote is not delimiter, blank or terminator and the row end is a terminator other than the delimiter |
| `CsvRoundTrip.UnterminatedRowLosesItsLastField` | src/Link/csv_link/alllink.rs:60-63 | A row without terminator logs all its fields but the last, and `csv_fini` still succeeds |
| `CsvRoundTrip.OptionsMayChange` | src/Link/csv_link/alllink.rs:626-632 | Exactly when new options keep the invariant |
| `CsvReading.LinesRead` | src/Link/csv_link/alllink.rs:205-511 | Any lines of plain, empty and quoted fields, with blanks before and behind them, log exactly their fields, stripped of those blanks, and their row ends; lines of blanks log nothing, or a row end with the option for it |
| `CsvReading.InputRead` | src/Link/csv_link/alllink.rs:42-103 | The same with a last row that no terminator ends: `csv_fini` logs its last field and row end, unless the field was quoted or there is none |
| `CsvReading.OpenQuotedField` | src/Link/csv_link/alllink.rs:56-103 | A last field without its closing quote is logged as it is, or refused, if and only if strict mode holds for the end of the input too |
| `CsvReading.StrayText` | src/Link/csv_link/alllink.rs:454-501 | Out of strict mode, text behind a closing quote makes the quote and the blanks after it part of the field, and a quote behind such blanks may end it again |
| `CsvReading.EmptyLastFieldIff` | src/Link/csv_link/alllink.rs:221-265 | A terminator behind an empty last field ends the row, with the field as empty or absent, if and only if it does not count as a blank |
| `CsvStops.IncreaseIs` | src/Link/csv_link/alllink.rs:513-548 | The new size is the old one and the first halving of the smaller of block size and room that is met; `TooBig` exactly without room, out of memory without a buffer or with no halving met |
| `CsvStops.RoomIff` | src/Link/csv_link/alllink.rs:205-215 | When no memory can be had any more, a byte that is not refused is taken if and only if there is room for it, and for the zero byte behind it if asked for |
| `CsvStops.StopsAtIff` | src/Link/csv_link/alllink.rs:308-510 | As long as memory lasts, a call stops before a byte, with the parse error, if and only if it is in strict mode and the byte is a quote inside an unquoted field or stray text after a closing quote |
| `CsvStops.AllTakenIff` | src/Link/csv_link/alllink.rs:180-215 | As long as memory lasts, all input is taken if and only if there is none, or there is a buffer and strict mode refuses no byte |
| `CsvWriter.QuotedIs` | src/Link/csv_link/alllink.rs:671-719 | The quoted form is the field between quotes, with exactly the quotes inside doubled |
| `CsvWriter.Write2` | src/Link/csv_link/alllink.rs:671-719 | The first min(capacity, N) bytes of the buffer become those of the quoted form, the rest is untouched, and the result is N, at most 2^64 - 1, also without a destination |
| `CsvWriter.FWrite2` | src/Link/csv_link/alllink.rs:122-144 | The stream gets the whole quoted form, or, when it fails, exactly the bytes it had room for |
| `TarjanMoves.EnterInv` | src/python/gpt_translation/translation_utils_mixin.py:217-225 | Numbering and pushing a new node keeps the search invariant |
| `TarjanMoves.PassInv` | src/python/gpt_translation/translation_utils_mixin.py:226-227 | Passing an edge to a known node, with the low link lowered if it is on the stack, keeps it |
| `TarjanMoves.RootComponent` | src/python/gpt_translation/translation_utils_mixin.py:232-240 | A finished node whose low link is its index has exactly a maximal strongly connected component above it on the stack |
| `TarjanMoves.FinishRootInv` | src/python/gpt_translation/translation_utils_mixin.py:232-240 | Popping that component keeps the invariant |
| `TarjanMoves.FinishInnerInv` | src/python/gpt_translation/translation_utils_mixin.py:241-243 | Any other finished node has a parent, and handing it the low link keeps the invariant |
| `TarjanState.Variables.EnterNode` | src/python/gpt_translation/translation_utils_mixin.py:206-211 | The dictionaries, stack and counter follow the step `Enter` |
| `TarjanState.Variables.PassEdge` | src/python/type_registry.py:286-287 | The dictionaries, stack and counter follow the step `Pass` |
| `TarjanState.Variables.PopComponent` | src/python/type_registry.py:289-297 | The pop loop takes exactly the top segment, as `FinishRoot` |
| `TarjanState.Variables.LinkParent` | src/python/type_registry.py:285 | Lowering the parent's link is `FinishInner` for an open node and changes nothing for a closed one |
| `TarjanIterative.BuildAdjacency` | src/python/gpt_translation/translation_utils_mixin.py:188-194 | The graph of the known callees of each function |
| `TarjanIterative.CallEdgeIff` | src/python/gpt_translation/translation_utils_mixin.py:188-194 | Its edges are exactly the dependencies between functions of the map |
| `TarjanIterative.Scan` | src/python/gpt_translation/translation_utils_mixin.py:213-229 | The iterator loop either descends into a new node or exhausts the node on top, keeping the invariant |
| `TarjanIterative.Finalize` | src/python/gpt_translation/translation_utils_mixin.py:230-243 | The end of a node keeps the invariant and pops one frame |
| `TarjanIterative.SearchFrom` | src/python/gpt_translation/translation_utils_mixin.py:203-243 | The work stack empties, with the start node numbered |
| `TarjanIterative.FindStronglyConnectedComponents` | src/python/gpt_translation/translation_utils_mixin.py:180-245 | For every call graph: the maximal strongly connected components, each function in exactly one, callees first |
| `TarjanRecursive.StrongConnect` | src/python/type_registry.py:275-297 | The recursive call closes the node's component or leaves it to its caller, keeping the invariant |
| `TarjanRecursive.TarjanScc` | src/python/type_registry.py:267-303 | The same result for every type graph |
| `TarjanRecursive.SameComponents` | src/python/type_registry.py:267-303 | Any two such results for one graph are the same multiset of components |
| `TarjanRecursive.ComponentListed` | src/python/gpt_translation/translation_utils_mixin.py:180-245 | A set is listed if and only if it is a component |
| `Condensation.CondensationAcyclic` | src/python/gpt_translation/translation_utils_mixin.py:181-184 | A component depends only on components listed before it |
| `Condensation.NumberNodes` | src/python/gpt_translation/translation_utils_mixin.py:270-273 | Each node is mapped to the one component that holds it |
| `Condensation.BuildTables` | src/python/gpt_translation/translation_utils_mixin.py:275-291 | The counter of a component is its number of distinct dependencies, the consumer sets are the inverse relation |
| `Kahn.AllTaken` | src/python/validate_nanosvg_scc.py:121-130 | When the queue is empty nothing is left, because the condensation is acyclic |
| `Kahn.InitialQueue` | src/python/gpt_translation/translation_utils_mixin.py:293-296 | Exactly the components without dependencies, in increasing order |
| `Kahn.Drain` | src/python/validate_nanosvg_scc.py:121-130 | Every component once, after all it depends on, in the order in which they became ready, and every counter ends at zero |
| `Kahn.DrainSorted` | src/python/type_registry.py:246-258 | The same when the next ready component is chosen by any rule |
| `CallOrder.CreateSccTopoQueue` | src/python/gpt_translation/translation_utils_mixin.py:269-298 | Components, numbering, tables and queue are consistent, for every call graph |
| `CallOrder.DrainVisitsCalleesFirst` | src/python/validate_nanosvg_scc.py:121-130 | Every function is visited, after each callee outside its own component |
| `CallOrder.DrainCallGraph` | src/python/validate_nanosvg_scc.py:121-130 | Queue and drain together strand no component, for every call graph |
| `TypeOrder.TypeDependencyGraph.Closure` | src/python/type_registry.py:190-201 | Exactly what the known roots reach, and closed under dependencies |
| `TypeOrder.TypeDependencyGraph.ComputeTopoBatches` | src/python/type_registry.py:227-260 | One batch per component, every key in one, dependencies in the same batch or an earlier one |
| `TypeOrder.TypeDependencyGraph.TopoBatches` | src/python/type_registry.py:203-206 | The cached batches are always such batches |
| `TypeOrder.TypeDependencyGraph.FlattenedTopoOrder` | src/python/type_registry.py:208-214 | Every key once, after its dependencies outside its own component; cached |
| `TypeOrder.RestrictSorted` | src/python/type_registry.py:216-218 | Keeping a dependency-closed part of such an order keeps the order |
| `TypeOrder.TypeDependencyGraph.OrderedClosure` | src/python/type_registry.py:216-218 | Exactly the reachable keys, each once, in that order |
| `SplitClosure.ClosureBlocks` | src/python/split_merged.py:100-120 | The blocks of everything the function needs, through all members of each block |
| `SplitClosure.BlocksAreLeast` | src/python/split_merged.py:100-120 | That is the least set with the function's block that is closed under the members' dependencies |
| `SplitClosure.Visitor.Visit` | src/python/split_perfassure_merged.py:90-97 | Depth-first: the function and all it reaches are listed, it last if it is new |
| `SplitClosure.ClosureOrder` | src/python/split_perfassure_merged.py:86-100 | Exactly the reachable callees, without repeats, each after those of its callees that cannot reach it back |
| `ExprTree.Rule1Sound` | src/python/distance.py:306-325 | Rule 1 keeps the value of every well-typed expression under every interpretation of the other operators |
| `ExprTree.Rule2Sound` | src/python/distance.py:294-305 | So does rule 2 when operand order is kept |
| `ExprNumbering.Rule1Numbered` | src/python/distance.py:329-336 | After rule 1 ids are still distinct and read operands in order |
| `ExprNumbering.Rule2Numbered` | src/python/distance.py:294-305 | And after rule 2, with the operands in the order the new ids give |
| `ExprNumbering.OrderKeptIff` | src/python/distance.py:248-252 | Rule 2 keeps operand order if and only if the id it brings up is on the same side of every sibling as the one it replaces |
| `ExprRuns.DeepCopyPreorder` | src/python/kquery-parser/Node.py:46-73 | A deep copy is numbered in pre-order with the next ids of the counter |
| `ExprRuns.PreorderGood` | src/python/kquery-parser/Node.py:46-62 | Pre-order numbering is one that reads operands in order |
| `ExprRuns.DeepCopySame` | src/python/kquery-parser/Node.py:64-73 | A deep copy has the value of the original |
| `ExprRuns.RunSound` | src/python/distance.py:269-326 | Any sequence of steps without an arm flip keeps the value, the typing and the numbering |
| `ExprRuns.ExchangedArms` | src/python/distance.py:329-336 | After rule 1 on a pre-order tree, rule 2 at one arm flips the arms and at the other does not |
| `ExprRuns.RunCanChangeMeaning` | src/python/distance.py:329-336 | A pre-order tree and a run of rule 1 and rule 2 that turns true into false |
| `ExprFlips.PreorderSpans` | src/python/kquery-parser/Node.py:46-73 | A deep copy has its equations before their operands and its operands from left to right |
| `ExprFlips.DepthFalls` | src/python/distance.py:269-326 | No step raises the number of negations that can come to lie on top of each other at any place |
| `ExprFlips.StepCalm` | src/python/distance.py:269-336 | A step of an expression that can flip no arms flips none and leaves one that cannot |
| `ExprFlipRuns.SomeRunFlipsIff` | src/python/distance.py:269-336 | Some run flips the arms of a Select if and only if some Select is at risk, which the depths of negation of its operands decide |
| `ExprFlipRuns.ConditionFirstIff` | src/python/distance.py:306-336 | After all negations of a Select's condition are taken off, a rewrite of an arm flips the arms if and only if they were odd in number and the false arm, now first, is doubly negated |
| `ExprFlipRuns.FlipKeepsValueIff` | src/python/distance.py:294-305 | A flipped Select keeps its value if and only if its two arms have the same value |
| `ExprGraph.ReadsUnique` | src/python/distance.py:248-252 | A graph and a root id read as one tree only |
| `ExprGraph.Rule1Reads` | src/python/distance.py:306-325 | The graph edited by rule 1 reads as the rewritten tree, with exactly the removed nodes gone |
| `ExprGraph.Rule2Reads` | src/python/distance.py:294-305 | The same for rule 2 |
| `Canonicalize.ExpressionGraph.Kids` | src/python/distance.py:248-252 | The successors in increasing id order |
| `Canonicalize.ExpressionGraph.IsNot` | src/python/distance.py:255-266 | Finds the negated operand if and only if the node reads as a negation |
| `Canonicalize.ExpressionGraph.SwapIds` | src/python/distance.py:329-336 | The three relabellings exchange the two ids everywhere |
| `Canonicalize.ExpressionGraph.TryRule2` | src/python/distance.py:294-305 | Applies if and only if there is a redex, and then is `Apply2` on the reading with four nodes fewer |
| `Canonicalize.ExpressionGraph.TryRule1` | src/python/distance.py:306-325 | Applies if and only if there is a redex, and then is `Apply1` with two nodes fewer |
| `Canonicalize.ExpressionGraph.Pass` | src/python/distance.py:288-325 | A pass makes one step or shows that there is no redex |
| `Canonicalize.ExpressionGraph.Run` | src/python/distance.py:269-326 | Ends, with a reading of a rewritten tree without redexes and node counts accounted for; the value is kept for every input without a Select at risk, and whenever no step flipped arms |
| `Canonicalize.NoRedexIff` | src/python/distance.py:281-325 | That nothing can be rewritten means that no part is a Select with `Eq false` as its condition, on either side, or a double `Eq false` |
| `EditDistance.CheapestScript` | src/python/createArgumentMap.py:28-37 | The recurrence's value is the cost of a script that turns one string into the other |
| `EditDistance.NoCheaperScript` | src/python/createArgumentMap.py:28-37 | No script of insertions, deletions and substitutions is cheaper |
| `EditDistance.ShortestScript` | src/python/createArgumentMap.py:18-39 | The recurrence's value is the least cost of a script, and some script has it |
| `EditDistance.NoShorterChain` | src/python/createArgumentMap.py:18-39 | No sequence of single-character edits of the whole string, at any places in any order, is shorter than the distance |
| `EditDistance.ShortestChain` | src/python/createArgumentMap.py:18-39 | Some sequence of such edits is as short |
| `EditDistance.LevZero` | src/python/createArgumentMap.py:18-39 | The distance is zero if and only if the strings are equal |
| `EditDistance.LevSymmetric` | src/python/createArgumentMap.py:18-39 | It is symmetric |
| `EditDistance.LevTriangle` | src/python/createArgumentMap.py:18-39 | It obeys the triangle inequality |
| `EditDistance.BaseCases` | src/python/createArgumentMap.py:23-27 | The first row and column hold distances to the empty string |
| `EditDistance.FillRow` | src/python/createArgumentMap.py:29-37 | Each row of the table holds the distances of the prefixes |
| `EditDistance.Compute` | src/python/createArgumentMap.py:18-39 | The table's last entry is the distance |
| `EditDistance.Nearest` | src/python/createArgumentMap.py:434 | The first definition at the least distance |
| `EditDistance.PickFunction` | src/python/createArgumentMap.py:422-437 | Exact if and only if some definition, no declaration or intrinsic, has the name; otherwise the first of the nearest within the limit, and nothing only if all are farther |
| `Distance.NearestWithinIff` | src/python/distance.py:355-367 | The best value for a graph is within r if and only if a graph of the same size is, or r is at least 1000 |
| `Distance.DirectedWithinIff` | src/python/distance.py:349-376 | The result is within r if and only if every graph on the left has such a counterpart |
| `Distance.CalculateDistance` | src/python/distance.py:349-376 | With the early break at 1000, the full maximum of minima |
| `Distance.ScoreSymmetric` | src/python/distance.py:535-548 | The larger of both directions does not depend on the order of the sides, if the comparison does not depend on the direction |
| `Distance.ScoreWithinIff` | src/python/distance.py:535-548 | The score is within r if and only if every graph of either side has a counterpart within r |
| `Distance.DirectedTriangle` | src/python/distance.py:349-376 | The result obeys the triangle inequality if the capped comparison does |
| `AgentProtocol.CheckFile` | src/python/gpt_translation/agent_mixin.py:555-575 | An accepted file compiles, has every target and every earlier function, and no stub; `UnitAcceptedIff` has the converse |
| `AgentProtocol.RunFrom` | src/python/gpt_translation/agent_mixin.py:426-460 | At most one attempt more than the retries; what is accepted is what the check returned with a pass |
| `AgentProtocol.RunEnds` | src/python/gpt_translation/agent_mixin.py:426-460 | Raises at an attempt if and only if it is reached in time, all before it were refused, and it fails or leaves neither file nor fenced reply; accepts a file at an attempt if and only if it is so reached and its offer passes the check with that file |
| `AgentProtocol.UnitAcceptedIff` | src/python/gpt_translation/agent_mixin.py:462-507 | A unit is accepted with a file at an attempt if and only if no callee that should be there is missing, all attempts before it, in time, were refused, and its offer, or what the import fix makes of it, has every target and every earlier function and no stub, and compiles |
| `AgentProtocol.BatchAcceptedIff` | src/python/gpt_translation/agent_mixin.py:509-530 | The same for a batch, whose offer must define the types if it is the unedited file |
| `AgentProtocol.TranslateKeeps` | src/python/gpt_translation/agent_mixin.py:474-507 | An accepted unit keeps every function and has its targets and all its callees in the map |
| `AgentProtocol.BatchKeeps` | src/python/gpt_translation/agent_mixin.py:509-530 | An accepted batch keeps every function; an unchanged file already defines the batch |
| `AgentProtocol.StepGrows` | src/python/gpt_translation/agent_mixin.py:462-537 | Every checked step, and every append that its guard stops, keeps all functions |
| `AgentProtocol.AppendLoses` | src/python/gpt_translation/agent_mixin.py:532-537 | When text is appended there is a reader of functions under which one is lost |
| `AgentProtocol.KeepsIffGuarded` | src/python/gpt_translation/agent_mixin.py:462-537 | A step keeps all functions under every reader if and only if it is checked, or appends nothing because the code is empty or the name is defined |
| `AgentProtocol.NeverShrinks` | src/python/gpt_translation/agent_mixin.py:396-537 | Over every run with any agents: no step can lose a function, however functions are read, if and only if no append gets past its guard; and then the function set grows from step to step |
| `AgentProtocol.AcceptedStaysPresent` | src/python/gpt_translation/agent_mixin.py:474-537 | At the end of every run on which the function set grows, the targets and in-map callees of every accepted unit are in the file |
| `AgentProtocol.RunsAreSafe` | src/python/gpt_translation/agent_mixin.py:396-537 | If what compiles is closed text and closed text added to closed text hides no function, every run with any agents that appends only closed text is monotone and ends with every accepted unit and its in-map callees in the file |
| `AgentProtocol.Translator.AgentRun` | src/python/gpt_translation/agent_mixin.py:396-460 | The retry loop is `RunFrom`, one counted invocation per attempt |
| `AgentProtocol.Translator.AgentTranslate` | src/python/gpt_translation/agent_mixin.py:462-507 | Is the step `Translate`; accepted, the file is the checked one and the unit is recorded, and otherwise nothing of the translation changes |
| `AgentProtocol.Translator.AgentTranslateTypeBatch` | src/python/gpt_translation/agent_mixin.py:509-530 | Is the step `TypeBatch`; unless accepted it leaves the file, and it records the types unless the run raises |
| `AgentProtocol.Translator.AgentAppendType` | src/python/gpt_translation/agent_mixin.py:532-537 | Appends the text between line ends unless it is empty or the name is defined, and records the type |
| `HarnessWalk.Harness.CreateObject` | src/Symbolizer/Pass/SymbolizerPass.cpp:981-1070 | A new object of the type, all of whose pointers, and those of all objects made for them, have met their fate; nothing older is touched |
| `HarnessWalk.Harness.InitializeInnerPointer` | src/Symbolizer/Pass/SymbolizerPass.cpp:546-592 | The slot points to a fresh object of the pointee type |
| `HarnessWalk.Harness.InitializeInnerObjects` | src/Symbolizer/Pass/SymbolizerPass.cpp:822-944 | Every data pointer at the place is bound, nulled or left symbolic exactly as `FateAt` says |
| `HarnessWalk.Harness.InitializeStruct` | src/Symbolizer/Pass/SymbolizerPass.cpp:868-942 | The same for the field loop with its return at the recursion boundary |
| `HarnessWalk.Harness.NullBoundaryPointers` | src/Symbolizer/Pass/SymbolizerPass.cpp:731-820 | Behind the boundary pointers to structs are NULL and others get objects, down to the depth cut-off; fields before it are untouched |
| `HarnessChains.WalkMeasure` | src/Symbolizer/Pass/SymbolizerPass.cpp:879-921 | Every environment whose type cycles cross a pointer-to-struct field has ranks that fall along all other fields |
| `HarnessEnds.RankedHalts` | src/Symbolizer/Pass/SymbolizerPass.cpp:822-944 | With such ranks the walk of every type ends, whatever is open |
| `HarnessLimits.NoEndOnCycle` | src/Symbolizer/Pass/SymbolizerPass.cpp:879-921 | The walk of a struct on a cycle of types that crosses no pointer-to-struct field, through pointers to pointers or by value, never ends |
| `HarnessLimits.WalkEndsIff` | src/Symbolizer/Pass/SymbolizerPass.cpp:822-944 | The walk ends on every type if and only if every cycle of types crosses a pointer-to-struct field |
| `HarnessLimits.HarnessHalts` | src/Symbolizer/Pass/SymbolizerPass.cpp:822-944 | Where structs have sizes, a type has a finished harness only if its walk ends |
| `HarnessChains.Build` | src/Symbolizer/Pass/SymbolizerPass.cpp:822-944 | For every type whose walk ends there is a finished harness, which the walk builds |
| `HarnessSymbolic.SlotIs` | src/Symbolizer/Pass/SymbolizerPass.cpp:731-942 | Every data pointer of a finished harness: an object in front of any boundary, with its struct open if it leads from struct to struct; behind one unbound if more than five indices on, and otherwise NULL or an object, as it points to a struct or not |
| `HarnessSymbolic.WrittenIff` | src/Symbolizer/Pass/SymbolizerPass.cpp:731-942 | Nothing is written but data pointers, and all of them but those unbound ones |
| `HarnessChains.NoSymbolicPointer` | src/Symbolizer/Pass/SymbolizerPass.cpp:731-820 | With by-value nesting within the cut-off every data pointer is a younger object of its type or, if it points to a struct, NULL |
| `HarnessChains.ChainsEnd` | src/Symbolizer/Pass/SymbolizerPass.cpp:594-607 | No chain of pointers is longer than the number of objects |
| `HarnessChains.HopsBounded` | src/Symbolizer/Pass/SymbolizerPass.cpp:891-921 | From the argument on, no walk goes from struct to struct more often than there are struct types |
| `HarnessChains.NeverFinishes` | src/Symbolizer/Pass/SymbolizerPass.cpp:879-921 | A struct with a field that points to it through a pointer to a pointer has no finished harness, whatever is open |
| `HarnessLimits.WalkMeasureIff` | src/Symbolizer/Pass/SymbolizerPass.cpp:879-921 | The ranks exist if and only if every cycle of types crosses a pointer-to-struct field |
| `HarnessLimits.NoHarnessOnCycle` | src/Symbolizer/Pass/SymbolizerPass.cpp:879-921 | Where structs have sizes, a struct on a cycle that crosses no pointer-to-struct field has no finished harness at all |
| `HarnessLimits.NoHarness` | src/Symbolizer/Pass/SymbolizerPass.cpp:879-921 | So every environment with such a cycle has a struct without a finished harness |
| `HarnessSymbolic.SymbolicIff` | src/Symbolizer/Pass/SymbolizerPass.cpp:731-820 | A data pointer of a finished harness is unbound if and only if the path goes on for more than five indices from its first recursion boundary |
| `HarnessSymbolic.SomeUnboundIff` | src/Symbolizer/Pass/SymbolizerPass.cpp:731-820 | A pointer that can be reached from the argument stays unbound if and only if, by the environment and the argument's type alone, the walk comes to an object with one that is too deep |
| `HarnessSymbolic.NestedStaysSymbolic` | src/Symbolizer/Pass/SymbolizerPass.cpp:731-740 | Every harness of a list node with a pointer deep in its payload has a node in which that pointer is unbound |
| `HarnessSymbolic.LessNestedIsBound` | src/Symbolizer/Pass/SymbolizerPass.cpp:731-780 | With one struct fewer, five indices down, that pointer gets an object in every node |
| `HarnessSymbolic.BuildNested` | src/Symbolizer/Pass/SymbolizerPass.cpp:731-740 | The walk builds such a harness |
| `SaturatingCast.RoundDownGreatest` | src/Symbolizer/Pass/SymbolizerPass.cpp:703-706 | Conversion with rounding toward zero gives the greatest representable value at most the integer, in every binary format |
| `SaturatingCast.SaturatedIs` | src/Symbolizer/Pass/SymbolizerPass.cpp:642-661 | The conversion asked for: the last integer of the type, from zero, that does not pass the number; zero for no number and the bounds for the infinities |
| `SaturatingCast.LoweringSaturates` | src/Symbolizer/Pass/SymbolizerPass.cpp:694-717 | For every format, width and input the select chain is the saturating conversion if and only if the input is not a rounded bound |
| `SaturatingCast.MaxExactIff` | src/Symbolizer/Pass/SymbolizerPass.cpp:705 | The maximum is not rounded if and only if its digits fit the significand |
| `SaturatingCast.MinExactIff` | src/Symbolizer/Pass/SymbolizerPass.cpp:706 | The minimum is not rounded if and only if it is zero or within the format's range |
| `SaturatingCast.LoweringExactIff` | src/Symbolizer/Pass/SymbolizerPass.cpp:653-661 | The lowering is right on every input if and only if neither bound is rounded |
| `SaturatingCast.DoubleToInt32` | src/Symbolizer/Pass/SymbolizerPass.cpp:653-661 | `f64` to `i32`, the cast it was written for, is right on every input, its bounds spelled out |
| `SaturatingCast.SingleToInt32Fails` | src/Symbolizer/Pass/SymbolizerPass.cpp:694-717 | `f32` to `i32` is wrong at 2147483520 |
| `SaturatingCast.HalfToInt32Fails` | src/Symbolizer/Pass/SymbolizerPass.cpp:694-717 | `f16` to `i32` is wrong at -65504 |
| `SaturatingCast.DoubleToInt64Fails` | src/Symbolizer/Pass/SymbolizerPass.cpp:694-717 | `f64` to `i64` is wrong at 2^63 - 1024 |
| `SaturatingCast.StandardFormats` | src/Symbolizer/Pass/SymbolizerPass.cpp:703-706 | Half, single and double precision hold the powers of two up to 2^15, 2^127 and 2^1023 |
| `Saturation.RoundsReach` | src/python/gpt_translation/byte_buffer_classifier.py:407-418 | Rounds add only what is reachable, and all of it if and only if one more round adds nothing |
| `Saturation.RoundsIff` | src/python/gpt_translation/byte_buffer_classifier.py:234-240 | k in-place rounds over a list reach an element if and only if a walk along the list leads to it that fewer than k times does not move forward in the list |
| `Saturation.EnoughRounds` | src/python/gpt_translation/byte_buffer_classifier.py:405-408 | As many rounds as there are elements to add suffice |
| `ByteBuffers.AliasClosure` | src/python/gpt_translation/byte_buffer_classifier.py:219-243 | Is twenty rounds over the assignments in both directions |
| `ByteBuffers.LinksAt` | src/python/gpt_translation/byte_buffer_classifier.py:232-240 | Each assignment links its two names both ways, the way from left to right first |
| `ByteBuffers.AliasedSymmetric` | src/python/gpt_translation/byte_buffer_classifier.py:222-225 | The relation it follows, through assignments with the names on either side, is symmetric |
| `ByteBuffers.FoundIff` | src/python/gpt_translation/byte_buffer_classifier.py:231-243 | A name is found if and only if some walk from the seed to it along the assignments, in either direction, goes back in the text, or stays, fewer than twenty times |
| `ByteBuffers.AliasClosureExactIff` | src/python/gpt_translation/byte_buffer_classifier.py:231-243 | Finds only aliases, and all of them if and only if each can be walked to from the seed along the assignments in their order with fewer than twenty turns back; which is also if and only if a further round adds nothing |
| `ByteBuffers.FewNamesComplete` | src/python/gpt_translation/byte_buffer_classifier.py:234 | With at most twenty-one names it finds exactly the names that assignments connect with the seed, on either side |
| `ByteBuffers.ChainMissed` | src/python/gpt_translation/byte_buffer_classifier.py:234 | For any number k of rounds, k + 2 names and assignments that make it miss an alias |
| `TagPropagation.Spread` | src/python/gpt_translation/byte_buffer_classifier.py:405-418 | The bounded loop always reaches the fixpoint: exactly the fields reachable from tagged ones |
| `TagPropagation.HoldsBytesIff` | src/python/gpt_translation/byte_buffer_classifier.py:385-418 | A field is tagged if and only if moves that lines show, between different fields of the struct and into `char *` fields, lead to it from a field with a tagged line |
| `TagPropagation.CollectMoves` | src/python/gpt_translation/byte_buffer_classifier.py:390-400 | Exactly the moves between two different fields of the struct that some line shows |
| `TagPropagation.MarkedIff` | src/python/gpt_translation/byte_buffer_classifier.py:425-437 | A tag lands in a field's list if and only if one of its lines starts with a move from a tagged field |
| `TagPropagation.MarkIs` | src/python/gpt_translation/byte_buffer_classifier.py:425-437 | The tag goes to the first of those lines, and nothing else changes |
| `TagPropagation.Usage.Propagate` | src/python/gpt_translation/byte_buffer_classifier.py:317-439 | Returns exactly the fields that tags newly reach along moves into `char *` fields, and marks the lists accordingly |
| `TagPropagation.PassKeepsMeaning` | src/python/gpt_translation/byte_buffer_classifier.py:317-439 | The pass never changes which fields a further pass finds |
| `TagPropagation.NewFieldMarkedIff` | src/python/gpt_translation/byte_buffer_classifier.py:420-437 | A newly tagged field carries a tag afterwards if and only if its own list has the evidence |
| `TagPropagation.ReportedWithoutTag` | src/python/gpt_translation/byte_buffer_classifier.py:420-437 | Lists, each with a use, for which the pass reports a field as newly tagged and tags none of its lines |
| `IrSignature.CountIrArgs` | src/python/generateCToRustArgumentMap.py:50-73 | The scan counts the non-blank pieces between top-level commas, or -1 without a parenthesis |
| `IrSignature.SignatureRoundTrip` | src/python/createArgumentMap.py:458-462 | The scan of a printed signature, whatever follows it, reads the arguments' texts, and the count is their number if and only if none prints blank |
| `IrSignature.TextsCounted` | src/python/generateCToRustArgumentMap.py:50-73 | Round, square, curly and angle brackets group what is between them, nested to any depth and with commas: a list of such texts counts as many as it has |
| `IrSignature.CommasDivide` | src/python/generateCToRustArgumentMap.py:59-69 | Nothing else groups: without brackets every comma divides |
| `IrSignature.SignatureIs` | src/python/createArgumentMap.py:458-462 | The printed form: the result type up to its parenthesis and without blanks around it, the name, and the arguments with the names they have |
| `IrSignature.NameMustHaveNoParen` | src/python/createArgumentMap.py:461 | With `()` in the function's name every argument is missed |

## Left out

- The CSV callbacks are always present and do not change the parser; `csv_init` on a used parser, `csv_free`, getters, the setters as methods of the object, overlapping source and destination buffers and raw-pointer handling are not modelled. `realloc_func` is a deterministic choice of the sizes it can supply.
- Components are sets rather than sorted tuples, and every sort that only fixes an order among equals is an arbitrary order, which the results hold for.
- `createSccTopoQueue` also joins the Rust code of the types into a context string; `predecessors_of_batch` and `reverse_adjacency` are not modelled.
- SplitClosure.ClosureBlocks: a block is the list of its members instead of their names joined by `@`.
- ExprRuns.RunSound: goes one way. After a flip the value is characterised at the flipped Select (`FlipKeepsValueIff`); whether a difference there reaches the value of the whole expression depends on the operators around it.
- Canonicalize.ExpressionGraph.Pass: the nodes may come in any order, where the code takes the order in which the graph library read them from the file, so `SomeRunFlipsIff` speaks of some order.
- Canonicalize.ExpressionGraph.Run: graphs that share nodes between parents are not modelled, since every node of a parsed expression is created once for one parent.
- AgentProtocol.RunFrom: the request without a check, messages, sessions, backoff and the clock are not modelled; whether time is up is part of what the agent answers.
- HarnessWalk.Harness.InitializeInnerObjects: arrays and slices, system and opaque structs, `Box`, `Vec` and `Option` recovery, function bodies for function pointers, leaf buffer names and the dump after the call are not modelled, and the environment toggles have their defaults.
- SaturatingCast.LoweringSaturates: the two zeros are one value, and the search for the calls in a module is not modelled.
- `is_byte_cursor_build` and `classify_use_site` rest on regular expressions over C text, which are inputs here: assignments, moves and `char *` declarations.
- The comparison of two graphs (isomorphism and edit distance of a library) is any function, and the string matching around it is not modelled.
- KLEE, clang, rustc, cargo, ctags and tree-sitter calls, file handling, logging, scoring scripts and the benchmark programs are not modelled.
