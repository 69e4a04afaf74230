# Verified core of the simulation framework

A Dafny model of the self-contained algorithms and state machines of a C++ network-simulation
framework, with proofs of what they promise. `dafny verify dfyconfig.toml` checks everything.

Simulator objects (modules, gates, packets) are ids; `double` weights are ideal reals with an explicit
infinity; 32- and 64-bit arithmetic is written out where it matters. Each stateful class is a Dafny class
whose methods are proved against functions on values, and the theorems are about those functions.

- **Topology** (`Options`, `Sequences`, `Weights`, `TopologyGraph`, `TopologyLinks`, `WeightedSearch`, `UnweightedSearch`,
  `Topologies`): a directed multigraph in which both ends list every link, edited in place; a node vector
  ordered by unsigned module id and searched by bisection; and the two shortest-path searches. The weighted
  search is optimal for all positive link weights and non-negative, possibly infinite, node weights; the
  breadth-first search is proved to be, round by round, the weighted search of the unit graph.
- **Macho state machines** (`MachoStates`, `MachoHistory`, `Macho`): over every run the trace of entries and
  exits is a well-nested bracket word whose open brackets are the active states; transitions follow
  statechart order; histories are proper substates, so initialisation terminates; boxes live exactly while
  their state is active; and every call is a run of small steps, in which each posted event is dispatched.
- **PatternMatcher** (`PatternTokens`, `PatternLanguage`, `PatternText`, `PatternReading`, `PatternLines`, `PatternMatchers`):
  a pattern is accepted if and only if it is written from texts, wildcards, sets and number ranges; it is read back as
  exactly these parts, and the backtracking matcher with three shortcuts accepts exactly the lines that they describe.
- **128-bit integers** (`Bits`, `Uint128s`, `Uint128Text`, `Int128s`): limb arithmetic is arithmetic modulo
  2^128, long division is exact, and printing followed by parsing is the identity.
- **Routes** (`WirelessRoutes`, `WirelessNumHops`, `KRoutes`, `KRoutesThorough`, `KShortest`, `KRoutesOrder`): minimum-hop routes behind two
  caches over a changing proximity graph; and the K-routes search for any heap order, where it also turns
  out that the search terminates, that the K_LIMITE test on recorded routes never fails, and that without
  limits every reachable node gets a route, and no route is left out while its node has fewer than K.
- **Lifecycle** (`Lifecycle`, `LifecycleRuns`, `NodeStatus`): a staged barrier protocol with asynchronous
  completions, for any number of operations interleaved on one controller.
- **Reassembly, queueing, byte buffering** (`Reassembly`, `Queueing`, `ByteBuffer`).

Where the code does not do what its comments or callers might expect, the model follows the code and the
exact condition is proved: `Int128s.LessIsExact` (comparison of negative numbers), `Int128s.Div` and
`Int128s.MinIsNotDivided` (division of the minimum), `Reassembly.OrderMattersExactly` and
`Reassembly.CompletionByPaths` (overlapping and conflicting fragments), `KRoutes.BandwidthIsConstant` (bandwidth
does not distinguish routes), `KRoutes.FirstStatesStay` (states are not replaced), `PatternTokens.EscapedBracket` (an
escaped bracket), `ByteBuffer.TakenStaysInside` (an offset near the end of 32 bits) and `FindRoute` of
`WirelessNumHops` (the root asked for itself).

## Model

| member | source | states |
|---|---|---|
| `WeightedSearch.WeightedSearchIsOptimal` | src/base/Topology.cc:409-467 | For every well-formed weighted graph and target, the finished search has the least walk cost at every node (infinite if no finite walk), and following outPath reaches the target at exactly that cost |
| `WeightedSearch.RoundInv` | src/base/Topology.cc:428-466 | A round of the loop keeps the list sorted, duplicate-free and complete, the pointer tree exact, and takes a node not taken before, so the loop ends |
| `WeightedSearch.RelaxKeepsInnerInv` | src/base/Topology.cc:436-465 | One pass over a link, with removal and re-insertion, keeps all invariants and relaxes its link |
| `WeightedSearch.MoveKeepsFrontier` | src/base/Topology.cc:451-464 | Removing a node and re-inserting it behind all that are not farther keeps taken nodes followed by the list ordered, distinct and exactly the reached nodes |
| `WeightedSearch.ImprovedIsNotTaken` | src/base/Topology.cc:436-465 | A strictly improved node was never dequeued before |
| `WeightedSearch.PopInv` | src/base/Topology.cc:428-433 | Taking the front node moves it to the taken nodes, where it was not yet |
| `WeightedSearch.EmptyListCertifies` | src/base/Topology.cc:428-466 | When the list is empty, no usable link offers a shorter way |
| `WeightedSearch.NoWalkIsShorter` | src/base/Topology.cc:409-467 | Distances without an improving link are lower bounds for every walk |
| `WeightedSearch.TakenNodeHasItsWalk` | src/base/Topology.cc:455-456 | The outPath pointers of a taken node form a walk to the target of exactly its distance |
| `WeightedSearch.RunInv` | src/base/Topology.cc:426-466 | The invariant holds when the whole loop has ended |
| `UnweightedSearch.UnweightedAgreesWithWeighted` | src/base/Topology.cc:365-467 | On every graph the breadth-first search ends with the same distances and pointers as the weighted search with link weights 1 and node weights 0 |
| `UnweightedSearch.VisitRoundIsRound` | src/base/Topology.cc:384-406 | One round of the deque loop is one round of the list loop under unit weights |
| `UnweightedSearch.VisitIsRelax` | src/base/Topology.cc:390-405 | Under unit weights no reached node improves and every insertion is at the end |
| `UnweightedSearch.UnitOfUnit` | src/base/Topology.cc:365-467 | A graph with link weights 1 and node weights 0 is its own unit graph, so on it the two searches agree as they stand |
| `UnweightedSearch.UnitDistanceIsHopCount` | src/base/Topology.cc:365-407 | A unit-weight distance is the least number of enabled links to the target |
| `UnweightedSearch.UnitCostIsLength` | src/base/Topology.cc:365-407 | The unit-weight cost of a walk is its length, and the walks are the same |
| `TopologyLinks.AttachKeepsConsistent` | src/base/Topology.cc:283-300 | Linking and relinking, self-loops included, keep every link listed exactly once at its source and once at its destination |
| `TopologyLinks.AttachLinks` | src/base/Topology.cc:283-300 | Linking, said of lists, ends and gate ids alone: source and destination are the given nodes, the link is last in their lists and nowhere else, nothing else is lost or reordered |
| `TopologyLinks.DeleteKeepsConsistent` | src/base/Topology.cc:325-347 | Deleting a link keeps the bookkeeping and leaves the link in no list |
| `TopologyLinks.DeleteUnlinks` | src/base/Topology.cc:325-347 | Deleting takes the link out of its two lists and the graph, and nothing else |
| `TopologyLinks.DeleteUndoesAttach` | src/base/Topology.cc:283-330 | Deleting a freshly linked link restores all lists |
| `TopologyLinks.DeleteAroundKeepsConsistent` | src/base/Topology.cc:257-281 | Removing a node with all its links keeps the bookkeeping of the rest |
| `TopologyLinks.DeleteAroundClears` | src/base/Topology.cc:257-281 | Exactly the links with an end at the node go; every list keeps the others in order |
| `TopologyLinks.TwoLoopsDeleteAround` | src/base/Topology.cc:257-281 | The two loops of deleteNode remove exactly the links at the node; a self-loop is removed once |
| `TopologyLinks.EraseIsKeep` | src/base/Topology.cc:332-347 | Erasing the found position removes the link and keeps the order of the others |
| `Topologies.Topology.AddNode` | src/base/Topology.cc:240-255 | Inserts the node once, keeps the vector ordered by unsigned id, at the end for id -1 and else in front of nodes with the same id, and touches no link |
| `Topologies.Topology.NewLink` | src/base/Topology.h:201 | A new link object is in no list |
| `Topologies.Topology.AddLink` | src/base/Topology.cc:283-300 | The link leads from the source node to the destination node, last in the out-list of the one and the in-list of the other; it has left the lists it was in, all others keep their order; a gate id is kept exactly if that end did not change |
| `Topologies.Topology.DeleteLink` | src/base/Topology.cc:325-330 | The link is gone from both lists and from the graph, and the lists lose nothing else; the outPath pointers still name live links only if and only if none named it |
| `Topologies.Topology.UnlinkFromSourceNode` | src/base/Topology.cc:332-338 | Only the list of the source node changes, by that link |
| `Topologies.Topology.UnlinkFromDestNode` | src/base/Topology.cc:340-347 | Only the list of the destination node changes, by that link |
| `Topologies.Topology.DeleteNode` | src/base/Topology.cc:257-281 | The node is gone, and exactly the links with an end at it are gone from the graph and the lists, which keep their order; the outPath pointers still name live links only if and only if none named a link of the node |
| `Topologies.Topology.GetNodeFor` | src/base/Topology.cc:356-363 | Bisection returns what a linear scan returns: the first node with the module id, or none |
| `Topologies.LowerBound` | src/base/Topology.cc:240-255 | The bisection point by unsigned id |
| `Topologies.InsertionPoint` | src/base/Topology.cc:240-255 | Where a node goes: the end for id -1, else the bisection point, in front of nodes with the same id |
| `Topologies.InsertedVector` | src/base/Topology.cc:240-255 | Inserting there keeps the node vector ordered, complete and free of duplicates |
| `Topologies.AddedIsFound` | src/base/Topology.cc:248-254 | Looking up the module id of a node just added finds that node, also when others have the same id |
| `Topologies.ErasedVector` | src/base/Topology.cc:275-280 | Erasing a node keeps the node vector ordered and complete |
| `Topologies.BisectionMiss` | src/base/Topology.cc:356-363 | If the bisection point does not have the id, no node has it |
| `Topologies.Topology.CalculateWeightedSingleShortestPathsTo` | src/base/Topology.cc:409-467 | For weights as the asserts demand them of usable links and reachable nodes: optimal distances and pointers for every node; error without a target; the graph is unchanged |
| `Topologies.Topology.CalculateUnweightedSingleShortestPathsTo` | src/base/Topology.cc:365-407 | Least hop counts for every node, and the result of the weighted search of the unit graph |
| `Topologies.Topology.RelaxLink` | src/base/Topology.cc:436-465 | The loop body in place is the pass that the invariants are proved about |
| `Topologies.Topology.UnweightedRound` | src/base/Topology.cc:384-406 | The deque loop body in place is one breadth-first round |
| `MachoStates.TransitionIsWellNested` | src/util/Macho.cc:139-175 | A transition closes and opens brackets so that exactly the chain of the new state is open |
| `MachoStates.TransitionFollowsStatechartOrder` | src/util/Macho.cc:139-175 | The trace is: exits innermost first down to the shared states strictly above the target, then entries outermost first; self and ancestor targets are left and re-entered |
| `MachoStates.StopsAgree` | src/util/Macho.cc:139-175 | The recursion of exit stops at the state where the recursion of entry begins |
| `MachoStates.DescentOnlyEnters` | src/util/Macho.cc:352-410 | Going to a proper substate exits nothing |
| `MachoStates.DescentsCompose` | src/util/Macho.cc:352-410 | Initialising in steps enters the same states as entering at once |
| `MachoHistory.LeavingRecordsHistory` | src/util/Macho.h:275-296 | Leaving c: every superstate with deep history records c, every one with shallow history its substate toward c, all other histories stay |
| `MachoHistory.StopLosesNothing` | src/util/Macho.h:692-696 | Where the bubbling stops early no superstate keeps a history |
| `MachoHistory.LeavingKeepsHistoryInv` | src/util/Macho.h:743-748 | A recorded history is always a proper substate of its owner, a direct one for shallow history |
| `MachoHistory.DeepHistorySurvives` | src/util/Macho.h:275-296 | A deep history survives leaving a state outside its owner |
| `Macho.EnterBox` | src/util/Macho.h:394-406 | Creating a box on entry keeps: own boxes live exactly in active states, box and place never both set, no memory shared, persistent boxes stay |
| `Macho.LeaveBox` | src/util/Macho.h:408-417 | On exit the asserts of deleteBox hold and the box invariant is kept |
| `Macho.Machine.ExitTo` | src/util/Macho.cc:157-175 | The recursive exit appends its trace and keeps the boxes of the states still active |
| `Macho.Machine.EnterFrom` | src/util/Macho.cc:139-155 | The recursive entry appends its trace and gives every entered state its box |
| `Macho.Machine.BubbleHistory` | src/util/Macho.h:736-748 | The virtual calls compute the bubbling of histories |
| `Macho.Machine.Execute` | src/util/Macho.cc:177-191 | What an initializer asks for next: the history if there is one, else what init sets; init forgets the history, an initializer with parameters does not |
| `Macho.Machine.Transition` | src/util/Macho.cc:359-410 | One pass of the inner loop is a step of the machine: exits, entries, recorded and forgotten histories, and the next request, which is for a proper substate |
| `Macho.TransitionMoves` | src/util/Macho.cc:359-410 | The exits, entries, histories and requests of a pass make up a step of the machine |
| `Macho.StepIsDeterministic` | src/util/Macho.cc:352-422 | From each configuration there is only one step, so a run is determined by its beginning |
| `Macho.RunsCompose` | src/util/Macho.cc:352-422 | Runs one after the other are a run, in which the events of both are handled in order |
| `Macho.HistoryIsRestored` | src/util/Macho.h:275-296 | A superstate with history, left and not entered meanwhile, resumes on a history request: with deep history the state that was left, with shallow history the direct substate above it |
| `Macho.Machine.Settle` | src/util/Macho.cc:359-410 | The inner loop is a run of steps that ends when no transition is asked for, in a substate of the target after one transition followed by entries only |
| `Macho.Machine.RattleOn` | src/util/Macho.cc:352-422 | A run of steps from the pending request on: transitions until none is pending, then one call of the handler of the state reached for each posted event, and so on; quiet exactly unless the given number of events was handled and another is posted; the invariant of trace, histories and boxes is kept |
| `Macho.AheadShrinks` | src/util/Macho.cc:359-410 | Each initialisation goes deeper, so the inner loop ends |
| `Macho.Machine.constructor` | src/util/Macho.cc:258-266 | Starting is a run of steps from Root; it enters exactly the chain of the start state and its initial substates |
| `Macho.Machine.Send` | src/util/Macho.h:1849-1870 | The handler of the current state, then a run of steps: its request first, then every posted event in turn; without a posted event the request is all; invariant kept and the trace only grows |
| `Macho.Machine.Shutdown` | src/util/Macho.cc:278-288 | All active states are left innermost first, the trace is balanced, no own box is left |
| `PatternMatchers.PatternMatcher.Matches` | src/util/PatternMatcher.cc:316-342 | For every line: accepts exactly the language of the pattern, in spite of the look at the last two characters |
| `PatternMatchers.DoMatch` | src/util/PatternMatcher.cc:223-314 | From any element and position: exactly the language of the rest of the pattern |
| `PatternMatchers.MatchAnySeq` | src/util/PatternMatcher.cc:277-295 | The loop for `**`: some split of the rest of the line |
| `PatternMatchers.MatchCommonSeq` | src/util/PatternMatcher.cc:296-305 | The loop for `*`: some dot-free split |
| `PatternMatchers.Consume` | src/util/PatternMatcher.cc:232-276 | Where a single-position element ends, which is the only place it can end, or that it does not fit |
| `PatternMatchers.IsInSet` | src/util/PatternMatcher.cc:209-221 | True exactly for characters in one of the ranges |
| `PatternLanguage.LangIsInLanguage` | src/util/PatternMatcher.cc:223-314 | The recursion over elements accepts exactly the lines that can be cut into fitting pieces |
| `PatternLanguage.TrailingAnySeq` | src/util/PatternMatcher.cc:281-282 | First shortcut: a trailing `**` accepts everything |
| `PatternLanguage.TrailingAnySeqLiteral` | src/util/PatternMatcher.cc:283-284 | Second shortcut: a trailing `**literal` accepts exactly the lines that end in the literal |
| `PatternLanguage.EndsInLastLiteral` | src/util/PatternMatcher.cc:316-342 | Third shortcut: a pattern that ends in a literal accepts only lines that end in it |
| `PatternMatchers.OtherEnding` | src/util/PatternMatcher.cc:316-342 | A line with other last two characters is not in the language |
| `PatternLanguage.LangConcat` | src/util/PatternMatcher.cc:223-314 | A concatenation accepts what its parts accept one after the other |
| `PatternMatchers.PatternMatcher.SetPattern` | src/util/PatternMatcher.cc:50-96 | Terminates on every pattern, accepts it if and only if it is written from parts, and stores the token list, padded in substring mode; it then stands for exactly the lines that the parts describe, in substring mode a piece of |
| `PatternText.PatternIsItsParts` | src/util/PatternMatcher.cc:50-183 | Round trip: a pattern written from any sequence of texts, `?`, `*`, `**`, sets, negated sets and number ranges in braces or brackets is tokenized to exactly the elements of these parts, for both settings of dottedpath |
| `PatternReading.AcceptedIsWritten` | src/util/PatternMatcher.cc:50-183 | Completeness: the tokenizer accepts a pattern if and only if it is written from some sequence of parts |
| `PatternReading.TextFrom` | src/util/PatternMatcher.cc:139-154 | What is read as a literal is a text, each character plain or behind a backslash, up to the end, a wildcard or the bracket of a number range |
| `PatternReading.ItemsFrom` | src/util/PatternMatcher.cc:98-137 | What is read as a set is a row of characters and spans up to the closing brace |
| `PatternLines.PatternMeansItsParts` | src/util/PatternMatcher.cc:50-314 | Such a pattern accepts exactly the lines that its parts describe one after the other, in substring mode those of which they describe a piece |
| `PatternLines.PartFits` | src/util/PatternMatcher.cc:230-312 | On lines: a text is itself, `?` one character, `*` any run (with dottedpath neither is or has a dot), `**` anything, a set one character between the ends of an item, a negated set one that is in none, a range a whole number within the bounds with any zeros in front |
| `PatternLines.WildcardLines` | src/util/PatternMatcher.cc:57-81 | The patterns `*`, `?` and `**`: with dottedpath the dot-free lines, the lines of one character that is no dot, and all lines; without it all lines, all of one character, and all lines |
| `PatternText.OpenSetIsRefused` | src/util/PatternMatcher.cc:98-137 | A set is refused if and only if no closing brace follows behind its first character, a caret not counted |
| `PatternText.UnclosedBraceIsRefused` | src/util/PatternMatcher.cc:98-137 | Behind any parts an unclosed brace makes the pattern malformed |
| `PatternText.LoneBackslashIsRefused` | src/util/PatternMatcher.cc:139-154 | A text that ends in a lone backslash is the other malformed pattern |
| `PatternText.DigitsAreNumber` | src/util/PatternMatcher.cc:156-183 | Every text of digits is the decimal form of its number with zeros in front |
| `PatternTokens.TokensFrom` | src/util/PatternMatcher.cc:50-96 | The loop ends under a lexicographic measure although a pass may consume nothing |
| `PatternTokens.TokenAt` | src/util/PatternMatcher.cc:57-81 | A pass that consumes nothing yields a literal and cannot follow one |
| `PatternMatchers.ParseSet` | src/util/PatternMatcher.cc:98-137 | The set at a brace, as pairs of characters, or unmatched brace |
| `PatternMatchers.ParseLiteralString` | src/util/PatternMatcher.cc:139-154 | The literal up to the next special character, with escapes |
| `PatternMatchers.ParseNumRange` | src/util/PatternMatcher.cc:156-183 | The number range with optional bounds, or none |
| `PatternTokens.EscapedBracket` | src/util/PatternMatcher.cc:139-154 | For an escaped bracket the literal ends in front of the bracket if and only if a number range follows, and then the next token is that range; otherwise the bracket is part of the literal |
| `PatternMatchers.EscapedRangeIsARange` | src/util/PatternMatcher.cc:139-154 | The failing input of the documented escape: the pattern `\[1..2]` accepts the line `[1]` and not the line `[1..2]` |
| `PatternTokens.PlainPattern` | src/util/PatternMatcher.cc:370-375 | A pattern without wildcards is the single literal of itself |
| `PatternMatchers.PlainPatternMatchesItself` | src/util/PatternMatcher.cc:370-375 | A pattern without wildcards matches exactly the line equal to it |
| `PatternLines.EscapedPatternMatchesText` | src/util/PatternMatcher.cc:139-154 | Escaping every character matches exactly the text |
| `PatternLanguage.SubstringMode` | src/util/PatternMatcher.cc:83-95 | Without fullstring, a line matches if and only if the tokens take some part of it in place |
| `Uint128s.Uint128.AddAssign` | src/util/uint128.cc:204-214 | Sum modulo 2^128, also with itself |
| `Uint128s.Uint128.Negated` | src/util/uint128.cc:157-163 | Two's complement modulo 2^128 |
| `Uint128s.Uint128.SubAssign` | src/util/uint128.h:148-151 | Difference modulo 2^128 |
| `Uint128s.Uint128.Less` | src/util/uint128.h:220-223 | Comparison of the values |
| `Uint128s.Uint128.ShlAssign` | src/util/uint128.cc:348-379 | Multiplication by 2^n modulo 2^128, for every n |
| `Uint128s.Uint128.ShrAssign` | src/util/uint128.cc:315-346 | Division by 2^n, for every n |
| `Uint128s.BitIsTested` | src/util/uint128.cc:288-295 | bit(n) is bit n of the value |
| `Uint128s.Uint128.SetBit` | src/util/uint128.cc:297-312 | Bit n becomes val, the rest of the value stays |
| `Uint128s.Uint128.MulAssign` | src/util/uint128.cc:216-238 | Product modulo 2^128, also with itself |
| `Uint128s.MulStep` | src/util/uint128.cc:229-235 | A pass of the shift-and-add loop accounts for one more bit of the multiplier |
| `Uint128s.Uint128.Div` | src/util/uint128.cc:241-286 | Exact quotient and remainder for every nonzero divisor, also when the remainder is stored into an operand |
| `Uint128s.Align` | src/util/uint128.cc:259-266 | The first loop takes bits until the remainder reaches the divisor; the bit counter wraps below zero and back; no overflow |
| `Uint128s.DivLoop` | src/util/uint128.cc:268-285 | The second loop ends with quotient and remainder |
| `Uint128s.DivShift` | src/util/uint128.cc:268-277 | Shifting in the next bit keeps the division invariant and loses no bit |
| `Uint128s.DivSubtract` | src/util/uint128.cc:278-282 | Subtracting sets a clear quotient bit and keeps the division invariant |
| `Uint128Text.ToString` | src/util/uint128.cc:28-49 | The digits of the value in the radix; the buffer of 256 characters never runs full |
| `Uint128Text.Set` | src/util/uint128.cc:51-103 | The integer that the text stands for, modulo 2^128 |
| `Uint128Text.ParseIsValue` | src/util/uint128.cc:51-103 | Every text: optional minus, the prefix of the radix, digits in either case up to the first other character, and the value is that of the digits by their face values, negated after a minus; decimal also takes a and A as ten, hexadecimal g and G as sixteen, octal 8 as eight |
| `Uint128Text.PrintedValue` | src/util/uint128.cc:28-49 | In every radix from 2 to 37 the printed digits have the value printed, and each is below the radix |
| `Uint128Text.DecimalRoundTrip` | src/util/uint128.cc:28-103 | Parsing a printed decimal returns the number, for every number |
| `Uint128Text.HexRoundTrip` | src/util/uint128.cc:28-103 | The same for hexadecimal with 0x in front |
| `Uint128Text.OctalRoundTrip` | src/util/uint128.cc:28-103 | The same for octal with 0 in front |
| `Uint128Text.PrintAndSet` | src/util/uint128.cc:28-103 | Through the objects: printing and setting again gives the same 128-bit value |
| `Int128s.Int128.Negated` | src/util/int128.cc:167-173 | Negation wrapped to 128 bits |
| `Int128s.Int128.AddAssign` | src/util/int128.cc:209-219 | Signed sum wrapped to 128 bits |
| `Int128s.Int128.MulAssign` | src/util/int128.cc:221-243 | Signed product wrapped to 128 bits, also with itself |
| `Int128s.SignedMulStep` | src/util/int128.cc:234-240 | A pass of the signed loop, with sign fill, accounts for one more bit of the multiplier |
| `Int128s.Int128.ShlAssign` | src/util/int128.cc:363-394 | Multiplication by 2^n wrapped to 128 bits, for every n |
| `Int128s.Int128.ShrAssign` | src/util/int128.cc:329-361 | Division by 2^n rounded down, for every n and negative values |
| `Int128s.Int128.SetBit` | src/util/int128.cc:311-326 | Bit n of the two's complement pattern becomes val |
| `Int128s.Div` | src/util/int128.cc:246-298 | Truncated quotient and remainder, except that the minimum value is returned as the remainder with quotient 0 |
| `Int128s.TruncatedDivision` | src/util/int128.cc:246-298 | The quotient times divisor plus remainder is the dividend, the remainder is smaller than the divisor and has the dividend's sign |
| `Int128s.MinIsNotDivided` | src/util/int128.cc:246-298 | For the minimum as dividend the quotient 0 is wrong for every divisor |
| `Int128s.MinDivisorLoops` | src/util/int128.cc:253-290 | With the minimum as divisor the early return is not taken for any dividend, and the remainder alternates between 0 and the minimum, never below the divisor, so the loop has no end |
| `Int128s.LessIsExact` | src/util/int128.cc:396-407 | operator< is right if and only if it is not the case that both are negative with equal high limbs and low limbs that differ in their top bit |
| `Int128s.LessFails` | src/util/int128.cc:396-407 | A pair at which operator< is wrong in both directions |
| `WirelessRoutes.NoRouteIsShorter` | src/util/WirelessNumHops.cc:403-517 | In a solved map no route has fewer hops than the stored cost |
| `WirelessRoutes.FollowIsMinHop` | src/util/WirelessNumHops.cc:658-678 | Following prev gives a minimum-hop route |
| `WirelessRoutes.AbsentIsUnreachable` | src/util/WirelessNumHops.cc:403-517 | A node that is not in a solved map is unreachable |
| `WirelessRoutes.TakeKeeps` | src/util/WirelessNumHops.cc:426-461 | Drawing any node of least cost keeps the search invariant |
| `WirelessRoutes.FindKeeps` | src/util/WirelessNumHops.cc:465-511 | Relabelling a neighbour keeps the search invariant; no node is found a second, shorter way |
| `WirelessRoutes.EmptyHeapSolves` | src/util/WirelessNumHops.cc:403-517 | When the heap is empty the map is solved |
| `WirelessNumHops.CollectedIsProximity` | src/util/WirelessNumHops.cc:106-171 | The links collected by the two loops are the proximity graph |
| `WirelessNumHops.WirelessNumHops.FillRoutingTables` | src/util/WirelessNumHops.cc:106-171 | After a refresh both caches belong to the current graph, or everything is cleared when the root has no link |
| `WirelessNumHops.AddEdge` | src/util/WirelessNumHops.cc:320-346 | Exactly one edge more, and no neighbour listed twice |
| `WirelessNumHops.WirelessNumHops.Run` | src/util/WirelessNumHops.cc:403-517 | The map is solved, whatever least-cost node is drawn each time |
| `WirelessNumHops.WirelessNumHops.ExpandNode` | src/util/WirelessNumHops.cc:463-511 | All neighbours of the drawn node are known at one hop more at most |
| `WirelessNumHops.WirelessNumHops.GetRoute` | src/util/WirelessNumHops.cc:658-678 | A minimum-hop route to every node in the map |
| `WirelessNumHops.WirelessNumHops.FindRoutePath` | src/util/WirelessNumHops.cc:693-706 | A minimum-hop route in the cached graph, or unreachable |
| `WirelessNumHops.WirelessNumHops.FindRoute` | src/util/WirelessNumHops.cc:708-746 | After any history: a minimum-hop route in the current proximity graph; none if and only if the destination is unreachable, or is the root itself and has no links |
| `WirelessNumHops.IsolatedRoot` | src/util/WirelessNumHops.cc:106-171 | A root without links reaches nothing |
| `KShortest.AddCosts` | src/util/dijktraKShortest.cc:48-70 | The loop combines component by component: sum, minimum or maximum by the metric of the first operand |
| `KRoutes.PathCostAddsUp` | src/util/dijktraKShortest.cc:48-70 | Along a route the fold is the sum of the costs, delays and qualities |
| `KRoutes.BandwidthIsConstant` | src/util/dijktraKShortest.cc:48-103 | The bandwidth entry of a route is the starting 1e102 if and only if no link of the route exceeds it |
| `KRoutes.BandwidthIsLargest` | src/util/dijktraKShortest.cc:48-70 | The bandwidth entry is the largest of 1e102 and the bandwidths of the route |
| `KShortest.SetEdgeReplaces` | src/util/dijktraKShortest.cc:142-169 | Adding an edge again replaces its cost and no other |
| `KShortest.DijkstraKshortest.AddEdge` | src/util/dijktraKShortest.cc:142-169 | The new edge list, with no target twice |
| `KRoutes.PutKeepsStates` | src/util/dijktraKShortest.cc:315-353 | Appending or overwriting a tentative state keeps: every state's predecessor chain is a simple root-avoiding route along edges and its cost is the fold along it |
| `KRoutes.PutFreezes` | src/util/dijktraKShortest.cc:315-353 | Writing a tentative state changes no permanent one |
| `KRoutes.ChosenIsWritable` | src/util/dijktraKShortest.cc:303-353 | The state that an edge writes is new or tentative, within K, and never one of the root |
| `KRoutes.MarkKeepsStates` | src/util/dijktraKShortest.cc:287-289 | Making a state permanent changes no other state |
| `KRoutes.RoomForRoute` | src/util/dijktraKShortest.cc:279-283 | A node with a tentative state has fewer than K routes: the K_LIMITE test on recorded routes never fails |
| `KRoutes.RecordKeepsRoutes` | src/util/dijktraKShortest.cc:254-289 | Recording keeps the routes distinct, as many as permanent states, and every permanent state's route recorded |
| `KRoutes.MarkLowersUnmarked` | src/util/dijktraKShortest.cc:287-289 | Every expansion of a non-root node uses up one of finitely many slots |
| `KRoutes.EveryWalkIsServed` | src/util/dijktraKShortest.cc:198-356 | Without limits and with an empty heap, every node that any walk from the root reaches has a route |
| `KRoutesThorough.RelaxGoesOn` | src/util/dijktraKShortest.cc:296-354 | Following an edge leaves every edge followed so far accounted for: it leads back, or over the limits, or to a node with K states, or some state continues its source over it |
| `KRoutesThorough.FinishedIsClosed` | src/util/dijktraKShortest.cc:176-357 | When the heap is empty, every continuation within the limits of a recorded route, to a node with fewer than K routes, is recorded |
| `KRoutesThorough.AllRoutesAreServed` | src/util/dijktraKShortest.cc:176-357 | If no node has more than K simple routes within the limits, every such route is recorded |
| `KRoutes.FullNodeReplaces` | src/util/dijktraKShortest.cc:331-354 | A full node gives up only the victim, a tentative state with one beyond the ceiling up to it and none worse behind it, and only for a better cost; it keeps all states only if none is beyond the ceiling or the victim is not worse than the new cost |
| `KShortest.DijkstraKshortest.PathOf` | src/util/dijktraKShortest.cc:236-261 | The predecessor chain in order from the root; the two data errors cannot occur |
| `KShortest.DijkstraKshortest.RelaxEdge` | src/util/dijktraKShortest.cc:296-354 | Which state an edge writes and what, as the turn of the search has it; invariant kept, permanent states untouched; without limits the target has a state afterwards |
| `KShortest.FindVictim` | src/util/dijktraKShortest.cc:333-342 | No tentative state is chosen for replacement if and only if none is worse than the ceiling; the chosen one is tentative and none behind it is worse |
| `KRoutes.FirstStatesStay` | src/util/dijktraKShortest.cc:331-354 | Without limits a full node keeps the K states it has, whatever the cost of a new route to it, if and only if all its tentative states have routes within the ceilings 1e101, 1e100 and 1e101 for cost, delay and quality |
| `KRoutes.CeilingIsExceeded` | src/util/dijktraKShortest.cc:73-103 | The cost of a route is worse than the ceiling if and only if one of its three sums exceeds its own ceiling |
| `KShortest.DijkstraKshortest.Promote` | src/util/dijktraKShortest.cc:254-289 | The route is recorded and the state permanent; one slot fewer is left |
| `KShortest.DijkstraKshortest.Round` | src/util/dijktraKShortest.cc:198-356 | For any extracted element: exactly the turn of that element; invariant kept, permanent states never overwritten, measure decreases, error exactly if a recorded node has no edge list |
| `KShortest.DijkstraKshortest.Run` | src/util/dijktraKShortest.cc:176-357 | For any heap order: terminates, as the turns of some order; at most K routes to each node, pairwise distinct, simple, root-avoiding, along edges, at every step within the limits; costs are folds; without limits exactly the reachable nodes have routes, and there is an error if and only if K is 0, the root has no edge list or a reachable node has none; with limits there is none if every node that a route within the limits reaches has an edge list. After a run without error every one-step continuation, simple and within the limits, of the empty route or a recorded one is recorded unless its node has K routes; and if no node has more than K routes within the limits, all of them are recorded |
| `KRoutesOrder.OrderDecides` | src/util/dijktraKShortest.cc:309-330 | A network with limits in which one order of the heap ends well and another records a node without an edge list and fails: with limits neither is determined by the network |
| `KShortest.SearchServes` | src/util/dijktraKShortest.cc:176-357 | Whatever is left in the heap, every recorded node has between 1 and K distinct simple routes that end at it |
| `KShortest.ErrorCondition` | src/util/dijktraKShortest.cc:291-294 | All recorded nodes have edge lists if all nodes permitted by the limits have; without limits, if and only if all reachable nodes have |
| `KShortest.DijkstraKshortest.GetRouteMapK` | src/util/dijktraKShortest.cc:566-573 | The routes of the last run: at most K, distinct, simple, within the limits, from its root along its edges to the node; after a run without limits and errors there is one if and only if the node can be reached |
| `LifecycleRuns.EveryRunKeepsInv` | src/base/LifecycleController.cc:85-156 | For any number of operations on one controller and every interleaving of initiations and completions: each operation is on track, and all pending callbacks of all operations differ from each other and from the spare one |
| `LifecycleRuns.CallbackExactlyIfPending` | src/base/LifecycleController.cc:85-112 | From initiation on, whatever else happens, the completion callback is invoked once if initiateOperation returned false and the operation has ended, and otherwise never |
| `LifecycleRuns.StepKeepsInv` | src/base/LifecycleController.cc:85-156 | One initiation or completion, with operations underway, keeps the invariant of all |
| `LifecycleRuns.StagesComeInOrder` | src/base/LifecycleController.cc:94-136 | The calls that any one module sees are, for each operation, its stages in order |
| `LifecycleRuns.StatusAssertsNeverFail` | src/status/NodeStatus.cc:54-101 | Over every run of the controller from its start, the last-stage asserts of a node status module never fail |
| `Lifecycle.OthersStayApart` | src/base/LifecycleController.cc:114-136 | While one operation takes callbacks, spare or new, those of another stay distinct from them and from the spare one |
| `Lifecycle.InitiateEstablishesInv` | src/base/LifecycleController.cc:85-112 | Initiating puts an operation on track: stages are called until a module is late; no completion callback from inside |
| `Lifecycle.ResumeKeepsInv` | src/base/LifecycleController.cc:94-112 | A stage begins only when nothing is pending; the pending modules are exactly the late ones of the stage |
| `Lifecycle.VisitAllCalls` | src/base/LifecycleController.cc:114-136 | A traversal calls each participating module once and keeps callbacks pairwise distinct from each other and the spare |
| `Lifecycle.PreorderIsTree` | src/base/LifecycleController.cc:114-136 | The traversal visits an id if and only if a participating module of the tree, at any depth and below any modules, has it |
| `Lifecycle.PreorderInOrder` | src/base/LifecycleController.cc:114-136 | A module comes before those below it, and what is below an earlier child before what is below a later one |
| `Lifecycle.PreorderDistinct` | src/base/LifecycleController.cc:114-136 | In a tree with distinct ids no module is visited twice |
| `Lifecycle.CompletedKeepsInv` | src/base/LifecycleController.cc:138-156 | A completion keeps the invariant and ends the stage exactly if it was the last one pending |
| `Lifecycle.LogHasEachCallOnce` | src/base/LifecycleController.cc:94-136 | In the log of every operation on track, each participating module of the tree has exactly one call for each stage begun and none for later ones, and no other module has any |
| `Lifecycle.LogIsInOrder` | src/base/LifecycleController.cc:94-136 | The calls come stage by stage, and within a stage in tree order |
| `LifecycleRuns.EndsAfterAllCallbacks` | src/base/LifecycleController.cc:94-156 | An operation ends with exactly as many of its own completions as its modules were late, interleaved with anything |
| `Lifecycle.EachCallbackCounts` | src/base/LifecycleController.cc:138-156 | Every completion lowers the number of outstanding ones by one |
| `Lifecycle.LifecycleController.DoOneStage` | src/base/LifecycleController.cc:114-136 | The recursive traversal calls the participating modules in preorder |
| `Lifecycle.LifecycleController.ResumeOperation` | src/base/LifecycleController.cc:94-112 | The loop runs stages to the next barrier or the end |
| `Lifecycle.LifecycleController.InitiateOperation` | src/base/LifecycleController.cc:85-92 | With other operations underway: the state after initiation, true exactly if the operation is finished, and all operations on track with distinct callbacks |
| `Lifecycle.LifecycleController.ModuleOperationStageCompleted` | src/base/LifecycleController.cc:138-156 | A completion in any operation underway: its new state, in which exactly that callback is no longer pending if others are, and all operations on track with distinct callbacks |
| `NodeStatus.AssertsNeverFail` | src/status/NodeStatus.cc:54-101 | Whatever operations run their stages in order, in whatever interleaving and from any status, the last-stage asserts never fail |
| `NodeStatus.StepKeepsInv` | src/status/NodeStatus.cc:54-101 | At most one operation is under way and the status belongs to it |
| `NodeStatus.FreshOperations` | src/status/NodeStatus.cc:31-41 | From any initial status, operations that have not begun satisfy the invariant |
| `NodeStatus.CallSetsStatus` | src/status/NodeStatus.cc:54-101 | What each call does after any calls in order: refused at the first stage from a wrong status, else up or down at the last stage of the operation and going up or down before |
| `NodeStatus.NodeStatus.HandleOperationStage` | src/status/NodeStatus.cc:54-101 | Status change, rejection or assert failure for every stage of every operation; the status stays on the last two |
| `Reassembly.CompleteExactlyWhenAllArrived` | src/base/ReassemblyBuffer.cc:39-128 | For every cut, order and duplicates: complete exactly when all pieces have arrived, with the datagram's length |
| `Reassembly.AssembledIsMaximal` | src/base/ReassemblyBuffer.cc:39-128 | For all fragments, empty, overlapping or conflicting, in any order: the assembled range is that of a maximal path of the arrivals, fragments in a row from offset 0 that no other arrival continues |
| `Reassembly.MaximalIsAssembled` | src/base/ReassemblyBuffer.cc:39-128 | Every maximal path of the arrivals is what some order of them assembles |
| `Reassembly.CompletionByPaths` | src/base/ReassemblyBuffer.cc:39-45 | The datagram completes in every order if and only if every maximal path has a last fragment, and in some order if and only if one has |
| `Reassembly.OrderMattersExactly` | src/base/ReassemblyBuffer.cc:39-128 | All orders of the arrivals, with any repetitions, assemble the same range if and only if all maximal paths agree in their end and their last flag |
| `Reassembly.OrderMatters` | src/base/ReassemblyBuffer.cc:47-81 | Inputs at which the order decides: two fragments with the same beginning and different ends, and an empty last fragment |
| `Reassembly.OverlapIsLost` | src/base/ReassemblyBuffer.cc:75-80 | Two overlapping fragments that hold every byte of a datagram do not complete it, in either order |
| `Reassembly.AssembledIsReceived` | src/base/ReassemblyBuffer.cc:39-128 | For arbitrary fragments, everything in the assembled range has been received |
| `Reassembly.CompleteIsReceived` | src/base/ReassemblyBuffer.cc:39-45 | A datagram reported complete has every byte from 0 to its length |
| `Reassembly.MergeSettles` | src/base/ReassemblyBuffer.cc:83-128 | The repeat-until-stable loop leaves no stored fragment that could be merged |
| `Reassembly.ReassemblyBuffer.AddFragment` | src/base/ReassemblyBuffer.cc:39-81 | The buffer after an arrival; its range is that of a maximal path of all arrivals, and the result is true if and only if the path has a last fragment; without conflicts, if and only if the one chain of all arrivals has |
| `Reassembly.ReassemblyBuffer.DoMergeFragments` | src/base/ReassemblyBuffer.cc:83-128 | The erasing loop in place is the repeated merging pass |
| `Reassembly.ReassemblyBuffer.GetTotalLength` | src/base/ReassemblyBuffer.h:81 | Once complete: every byte below it has been received, and it is the length of the datagram that was cut into the arrivals; for agreeing fragments it is the end of their chain |
| `Queueing.LeaveAtIsLargestBusyPeriod` | src/base/AbstractQueue.cc:43-86 | The recursive departure time is the largest of arrival plus work over all possible beginnings of the busy period |
| `Queueing.LeaveInOrder` | src/base/AbstractQueue.cc:43-86 | Departure times follow the order of arrival |
| `Queueing.SingleServerQueue.HandleArrival` | src/base/AbstractQueue.cc:43-64 | An arrival keeps: packets left in order, each at max(arrival, previous departure) + service; timer exactly while serving; idle means empty queue |
| `Queueing.SingleServerQueue.HandleEndService` | src/base/AbstractQueue.cc:43-48 | The timer event lets at least one packet leave and keeps the same |
| `Queueing.SingleServerQueue.DoStartService` | src/base/AbstractQueue.cc:66-73 | Sets the timer for the departure time, or ends service at once; the mutual recursion terminates on the queue length |
| `Queueing.SingleServerQueue.DoEndService` | src/base/AbstractQueue.cc:75-86 | The packet in service leaves now and the next one starts |
| `ByteBuffer.ByteArrayBuffer.Push` | src/base/ByteArrayBuffer.cc:37-49 | The content grows by the chunk; bytes pushed are bytes removed followed by the content |
| `ByteBuffer.ByteArrayBuffer.GetBytesToBuffer` | src/base/ByteArrayBuffer.cc:51-71 | Copies the flat slice at any offset across chunks, empty ones included, and touches nothing behind it |
| `ByteBuffer.SliceAcross` | src/base/ByteArrayBuffer.cc:51-71 | A slice of a concatenation is what the first chunk has followed by the rest |
| `ByteBuffer.CopyDataToBuffer` | src/base/ByteArray.cc:52-61 | Copies the slice of one chunk into the buffer at a position |
| `ByteBuffer.TakenStaysInside` | src/base/ByteArray.cc:52-61 | What is taken stays inside the chunk if and only if the offset is behind it or offset plus length fit 32 bits; otherwise the whole length is taken, past the end |
| `ByteBuffer.ByteArrayBuffer.Drop` | src/base/ByteArrayBuffer.cc:78-103 | Removes exactly the first bytes; more than the content is an error that changes nothing |
| `ByteBuffer.ByteArrayBuffer.PopBytesToBuffer` | src/base/ByteArrayBuffer.cc:73-76 | Moves the first bytes out, as many as there are |
| `ByteBuffer.ByteArrayBuffer.Clear` | src/base/ByteArrayBuffer.cc:105-113 | Nothing is left, everything counts as removed |

## Left out

- Rounding of `double`: distances, costs and service times are ideal reals, infinity is its own value.
- Topology: extraction from the simulator, `addLink` by gates, `clear`, and modules that are not in the node vector.
- Macho.Machine.RattleOn: runs at most a given number of posted events, because handlers may post events for ever; the invariant holds after any number of them.
- Macho: snapshots, aliases, boxes supplied from outside, `setStateBox` and `setStateDirect`, clearing of histories, and events posted from entry, exit or init actions.
- PatternMatcher: case-insensitive mode, `patternPrefixMatches`, the bounds of `atol` and the signedness of `char`.
- PatternMatcher: a pattern that ends in a lone backslash, where the code reads past the end, is an error value.
- Uint128s.Uint128.Div: requires a nonzero divisor; the code provokes the processor's division error.
- Int128s.Div: requires a divisor that is neither zero nor the minimum value; for the minimum the loop of the code does not end (`Int128s.MinDivisorLoops`).
- Int128: text conversion, and assignment from other integer types; both integer classes: conversions from and to floating point.
- WirelessNumHops.WirelessNumHops.Run: the multiset heap is the set of tentative nodes, from which any node of least cost is drawn; with unit costs no node enters it twice. The K-routes search that it may start is modelled on its own.
- WirelessNumHops: static scenarios, link costs, several addresses per node, a change of root with filled caches, `runUntil`, and the IPv4 variants, which repeat the MAC address ones.
- KShortest.DijkstraKshortest.Run: with limits the error condition is one-way for the caller, because the order of the heap decides (`KRoutesOrder.OrderDecides`).
- K-routes: `getRoute`, `setRouteMapK`, `runUntil`, cost optimality (the comparison is not a strict weak order), and the static cost vectors growing when a second object is constructed.
- Lifecycle: command parsing, operations started from inside a handler, completions while the traversal that issued them is running, and exceptions thrown by handlers.
- NodeStatus: initialisation, signals and display strings.
- Reassembly: `ushort` offsets are naturals; no arithmetic is done on them, so nothing can wrap.
- Queueing: `cancelService`, and `arrivalWhenIdle` or `arrival` redefined to drop packets.
- ByteBuffer.ByteArrayBuffer.GetBytesToBuffer: requires that offset plus length fit 32 bits; otherwise the code reads past a chunk (`ByteBuffer.TakenStaysInside`). The 64-bit length counter is unbounded.
- NotificationBoard, PassiveQueueBase, ProtocolMap, OrdinalBased*, MMapBoard, ThruputMeter*: easier members only.
- The security module, packet dumps, sockets, launch scripts, GUI and XML helpers.
