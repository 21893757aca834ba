# Verification of the MATLAB language server's algorithms and protocols

This project models the parts of the language server whose correctness is a global property of an algorithm or of a
protocol, and proves those properties. MATLAB, the operating system and the client stay outside as environments that
may do anything the model allows them.

| part | files |
|---|---|
| lexical scope resolution, sweeps and result narrowing | `ScopeTree`, `ScopeSweep`, `ScopeVariables`, `ScopeGlobals`, `ScopeFunctions`, `SymbolSearch` |
| folding ranges | `FoldingLines`, `FoldingTrace`, `FoldingState`, `FoldingSteps`, `FoldingScanner`, `FoldingTokens`, `FoldingMatches`, `FoldingFunctions`, `FoldingShape`, `FoldingEndless` |
| process tree kill | `ProcessTree`, `ProcessKill` |
| exclude globs and the workspace walk | `Regex`, `GlobSyntax`, `ExcludeGlobs`, `GlobLanguage`, `GlobGroups`, `ExcludeMatcher`, `FileWalk` |
| argument declarations and their table | `ArgumentDeclarations`, `ArgumentRoundTrip`, `ArgumentTexts` |
| document symbols | `SymbolForest`, `DocumentSymbols` |
| declarations continued over lines | `Continuations` |
| connecting, stopping and installing sessions | `Lifecycle`, `LifecycleManager` |
| parses that finish out of order | `ParseOrder`, `Indexing` |
| stop conditions of exception filters | `StopConditions`, `StopConditionRuns`, `ExceptionRequests` |
| shared | `Options`, `Ranges`, `Sequences`, `Text` |

Code that computes is a function, code that loops or updates is a method with invariants, and objects that are updated
in place are classes. Each such method is proved against a function, and the theorems are about that function. For the
three protocols a stretch of code between two awaits is one atomic step, a run is any sequence of steps, and the
classes are proved to take exactly those steps. A command of a request, from when MATLAB carries it out to when its
answer is read, is one step, since only the failure of a command is kept of an answer. A clear typed in the terminal
is taken to be reported at once, and a request that waits when MATLAB restarts never goes on.

Verify the project with `dafny verify dfyconfig.toml`.

## Where the code does less than it says

- `ScopeVariables.UnboundIsNotSymmetric`: without a binder the default source is the scope of the reference.
  `SweepAgreesExactlyWhenBound` gives the exact condition.
- `SymbolSearch.DottedCallFails`: the name of a method that is called with the object as its argument and followed by a
  dot is dropped as if it were the object, and the index becomes -1. `SearchFailsExactly` and
  `DefinitionsAmongReferences` give the exact condition. The types of `src/indexing/FileInfoIndex.ts:106-112` allow such
  an identifier; whether MATLAB records one is not part of this model.
- `GlobLanguage.LineBreakIsMissed`, `FileWalk.LineBreakIsLost`: `.` matches no line break, so globstars miss names with
  one, and skipping emptied folders then loses files. `TranslationIsExact` says what is accepted of every path, and
  `PruningIsExact` what is lost of every tree.
- `ParseOrder.FileTextCanBeNewer`: the comment at `src/indexing/Indexer.ts:90-91` says a request id carries the order in
  which the text was read. For a file the id is given before the file is read, and the model follows the code.
  `HeldTextIsNewestExactly` gives the exact condition.
- `ParseOrder.CrawlCanRollBack`: a crawl carries no request id. `HeldIsLastTouch` says exactly when a crawl is held.
- `Lifecycle.EndedSessionIsInstalled`: a session that ends after it connected and before it is installed is installed.
- `StopConditionRuns.ClearDuringRequest`: clears that land during a request are forgotten when it ends.
  `RequestAgreesExactly` gives the exact condition for one request and `EveryRunAgreesExactly` for whole runs.
- `FoldingEndless.TwoEventsOverlap`: two block keywords on one line can give ranges that overlap. `RangesNestedExactly`
  gives the exact condition.

`ScopeFunctions.CallsArePartitioned` speaks of files without function prototypes (names without a scope). Prototypes
stand in the methods blocks of classes, which the model leaves out. `ScopeFunctions.PrototypeLosesItsCall`, a scope tree
with one, is the reason for that hypothesis, and `ScopeFunctions.FindsCallIsSameBinder` is exact for any scope tree.

## Model

| member | source | states |
|---|---|---|
| ScopeVariables.FindSweepSource | src/indexing/SymbolSearchService.ts:1067-1116 | The walk up from a reference yields what lexical scoping, read from the outside in, says: a global variable, the function scope that binds the name (the nearest shadowing declaration, else the widest definition), or the scope of the reference when nothing binds it. |
| ScopeVariables.NearestDeclarationDecides | src/indexing/SymbolSearchService.ts:1067-1111 | Said of the input arguments, output arguments and globals themselves: the nearest function upwards that has the name in any of the three decides; the reference is global when it is among the globals there, and lives in that function otherwise. |
| ScopeVariables.WidestDefinitionDecides | src/indexing/SymbolSearchService.ts:1113-1121 | Where no function upwards has the name among its arguments or globals, the name lives in the widest function with a recorded definition of it, and where none has one, in the function of the reference. |
| ScopeVariables.SweepAndAccumulateVarRefsOrDefs | src/indexing/SymbolSearchService.ts:1297-1310 | Adds to each list that is wanted exactly the identifiers of the scopes reached from the source without entering a shadowing declaration, scope by scope, and nothing to a list that is not wanted. |
| ScopeSweep.SweptIsVisible | src/indexing/SymbolSearchService.ts:1304-1308 | A scope is among the swept ones if and only if it exists and no scope on the way down to it, itself included, is a wall for the name. |
| ScopeSweep.InCollected | src/indexing/SymbolSearchService.ts:1301-1302 | An identifier is collected if and only if one of the swept scopes records it under the name. |
| ScopeSweep.CollectedAreRecorded | src/indexing/SymbolSearchService.ts:1297-1310 | An identifier is collected if and only if one of the swept scopes records it under the name in the field for its kind: the references or definitions of a variable, or the calls. |
| ScopeVariables.SweepStopsAtDeclarations | src/indexing/SymbolSearchService.ts:1304-1308 | A sweep reaches a scope if and only if no scope on the way down, itself included, has the name among its input arguments, output arguments or globals. |
| ScopeVariables.SweepContainsReference | src/indexing/SymbolSearchService.ts:1058-1121 | For every scope tree and every variable reference that is not global, the sweep from the source chosen by the walk up reaches the scope of that reference. |
| ScopeVariables.BoundSweepIsExact | src/indexing/SymbolSearchService.ts:1067-1120 | Below a source that binds the name, the sweep reaches a scope if and only if the walk up from that scope ends at the same source. |
| ScopeVariables.FindsIsSameSource | src/indexing/SymbolSearchService.ts:1058-1121 | A search from a bound reference finds another reference if and only if the two walks up end at the same source. |
| ScopeVariables.SameVariableIsEquivalence | src/indexing/SymbolSearchService.ts:1058-1121 | Being found from one another is reflexive, symmetric and transitive on bound references, and the results for two binders are equal or disjoint. |
| ScopeVariables.SweepAgreesExactlyWhenBound | src/indexing/SymbolSearchService.ts:1067-1120 | Every reference a search finds resolves back to its source if and only if the source binds the name or no scope swept below it has a reference of the name. |
| ScopeVariables.UnboundIsNotSymmetric | src/indexing/SymbolSearchService.ts:1067-1120 | A file in which nothing binds a name: a search from the outer use finds the nested one, and not the other way round. |
| ScopeGlobals.SweepGlobalsInFunction | src/indexing/SymbolSearchService.ts:1346-1377 | The recursive global sweep with its flag collects exactly the scopes that a state machine over the path (undeclared, declared, stopped) ends in as declared. |
| ScopeGlobals.SweepAndAccumulateGlobalVarRefsOrDefs | src/indexing/SymbolSearchService.ts:1331-1377 | Collects the script level when the file declares the name global there, and then exactly the function scopes of the global sweep. |
| ScopeGlobals.GlobalSweepIsExact | src/indexing/SymbolSearchService.ts:1331-1377 | The global sweep collects a scope if and only if its references resolve as global and no function above it declares the name global with a nested one hiding it by a parameter. |
| ScopeGlobals.GlobalSweepAgrees | src/indexing/SymbolSearchService.ts:1050-1101 | On every path that does not declare the name global again below such a parameter, a reference is collected by the global sweep if and only if the walk up classifies it as global. |
| ScopeGlobals.GlobalSweepMissesRedeclared | src/indexing/SymbolSearchService.ts:1356-1362 | A file in which the excluded case occurs: the reference resolves as global and the sweep misses it. |
| ScopeFunctions.SweepFunctionScope | src/indexing/SymbolSearchService.ts:1637-1712 | Collects the calls of the scopes reached without entering one that has a function of the same name, which also stops the sweep at its start unless the function declared there is the one looked for. |
| ScopeFunctions.SweepGlobalScope | src/indexing/SymbolSearchService.ts:1588-1625 | Collects the calls at script level and of the function scopes not below a function of the same name. |
| ScopeFunctions.AccumulateFunctionOrUnboundRefsOrDefs | src/indexing/SymbolSearchService.ts:820-936 | The walk up returns the kind of the name, records the declaration of the innermost scope that declares it, and collects the calls swept from there, or from the whole file when nothing declares it. |
| ScopeFunctions.BinderIsInnermost | src/indexing/SymbolSearchService.ts:833-882 | The scope where the walk up stops declares the function, and no scope between it and the call does. |
| ScopeFunctions.NearestFunctionDecides | src/indexing/SymbolSearchService.ts:833-882 | Said of the maps of functions themselves: the walk up stops at the nearest scope that holds a function of the name with a scope of its own, and a sweep reaches a scope if and only if no scope on the way down holds a function of the name. |
| ScopeFunctions.FindsCallIsSameBinder | src/indexing/SymbolSearchService.ts:820-936 | A search from one call finds another if and only if both walks up end at the same declaration, or at none, and no prototype stands between the start of the sweep and the other call. |
| ScopeFunctions.CallsArePartitioned | src/indexing/SymbolSearchService.ts:820-936 | In a file without prototypes the calls of a name are partitioned by what they resolve to: each search finds its own call and exactly those with the same binder. |
| ScopeFunctions.PrototypeLosesItsCall | src/indexing/SymbolSearchService.ts:1637-1650 | A scope tree with a prototype in which the search from a call does not find that call, the reason for the hypothesis of the partition. |
| SymbolSearch.DottedIdentifierNarrow | src/indexing/SymbolSearchService.ts:1774-1806 | Returns one location for each identifier that agrees with the selected one up to the selected component, in order; with an index before the first component it fails at the first identifier. |
| SymbolSearch.InNarrowed | src/indexing/SymbolSearchService.ts:1774-1806 | A location is returned if and only if some identifier matches and the location is that of its selected component. |
| SymbolSearch.NarrowCombineAndFormat | src/indexing/SymbolSearchService.ts:1826-1926 | For variables, functions, methods and properties, returns the narrowed lists with the declaration added where the first component is selected, and only the lists asked for; it fails when a list asked for does. |
| SymbolSearch.ReturnedExactly | src/indexing/SymbolSearchService.ts:1826-1926 | A location is among the references if and only if it is that of a reference whose components agree up to the selected one, or a declaration where the selected component is the first behind the object; the definitions of a function or method are exactly its declarations there and none for a later component, and a property has its declaration in both lists. |
| SymbolSearch.SearchFailsExactly | src/indexing/SymbolSearchService.ts:1826-1926 | A search fails if and only if the selected component is the one dropped as the object and a list that is asked for has something to narrow. |
| SymbolSearch.DefinitionsAmongReferences | src/indexing/SymbolSearchService.ts:162-164 | For every kind of identifier and every selected component, both lists are returned and each definition is among the references, if and only if the component dropped as the object is not the selected one or there is nothing to narrow; raw variable and property definitions are taken to be among the raw references. |
| SymbolSearch.DottedCallFails | src/indexing/SymbolSearchService.ts:1826-1860 | A method called with the object as its argument and followed by a dot, selected at its name: the name is dropped as if it were the object, and the search fails. |
| SymbolSearch.RawDefinitionsAmongReferences | src/indexing/SymbolSearchService.ts:1035-1121 | The premise of that holds for variables: where each scope records its definitions as references too, every raw definition of a search is a raw reference of it. |
| SymbolSearch.FindVarSourcedRefsOrDefsHelper | src/indexing/SymbolSearchService.ts:1035-1121 | The raw lists of a clicked variable: the global sweep, the script-level lists or the sweep from the resolved source, each only when the kind of result needs it. |
| SymbolSearch.RawAreRecorded | src/indexing/SymbolSearchService.ts:1035-1121 | An identifier is among the raw references or definitions if and only if a scope that is searched records it so under the name of the variable. |
| SymbolSearch.FindVarSourcedRefsOrDefs | src/indexing/SymbolSearchService.ts:956-991 | From the clicked variable to the result: its raw references and definitions, narrowed to the selected component and formatted. |
| SymbolSearch.SearchReturnsItsOwnReference | src/indexing/SymbolSearchService.ts:1035-1121 | A search for references returns the very component it was started on, save for a global that the global sweep misses. |
| SymbolSearch.FindClassRefsOrDefs | src/indexing/SymbolSearchService.ts:639-679 | Returns the class declaration, the constructor declaration when there is one, and the recorded references, in the lists that the kind of result asks for. |
| SymbolSearch.ClassListsAre | src/indexing/SymbolSearchService.ts:648-678 | Of the class declared in the file exactly the constructor and the recorded references are returned as references, and the class and its constructor as definitions; for any other name there are no definitions. |
| SymbolSearch.ClassDefinitionsAmongReferences | src/indexing/SymbolSearchService.ts:648-678 | For a class declared in the file, the definitions are among the references if and only if the class name is recorded as a reference, or the constructor is located there. |
| FoldingLines.ComputeBlockCommentLines | src/providers/hover/CommentStringScanner.ts:54-79 | A line is in a block comment if and only if an open delimiter stands at or above it that is not closed above it, or it is a delimiter line. |
| FoldingLines.BlockDepthIsLargest | src/providers/hover/CommentStringScanner.ts:54-79 | The depth of block comments at a line is the largest surplus of opening over closing delimiters since any line above. |
| FoldingLines.ComputeBlockCommentRanges | src/providers/hover/CommentStringScanner.ts:257-275 | Returns each outermost closed block comment once, in order, each starting below the one before. |
| FoldingLines.BlockCommentLines | src/providers/hover/CommentStringScanner.ts:54-79 | Every line of a block comment that is folded counts as a line in a block comment. |
| FoldingScanner.Scanner.PopFrame | src/providers/folding/OfflineFoldingScanner.ts:92-134 | Closing a block emits the block, its last case and the section directly inside it, each with the end the specification of the trace gives it, and moves a section below the last code line of a function without end to the enclosing scope. |
| FoldingScanner.Scanner.CloseSectionsDeeperThan | src/providers/folding/OfflineFoldingScanner.ts:85-90 | Closes exactly the sections deeper than a depth, and emits each that spans lines once. |
| FoldingScanner.Scanner.ScanKeyword | src/providers/folding/OfflineFoldingScanner.ts:239-279 | What a keyword does to the blocks, the trace and the flags, in all its branches, is what the reading automaton says. |
| FoldingTokens.TokenEvents | src/providers/folding/OfflineFoldingScanner.ts:225-281 | From the tokens alone, brackets and open blocks counted: an active token adds exactly one event of its own kind at its line, a block for an opener, class section or first arguments, a division for else, catch and case directly in their block, a close for an end with something open, and any other token adds none. |
| FoldingTokens.LineEvents | src/providers/folding/OfflineFoldingScanner.ts:136-176 | A section header outside of brackets adds exactly its event, a line of code only those of its tokens, any other line none, and each line has the role its class gives it. |
| FoldingMatches.BlocksAreCounted | src/providers/folding/OfflineFoldingScanner.ts:239-263 | In the pass for functions closed by end, the number of open blocks before every line is a plain count over the tokens: one more for each block that opens and one less for each end, where an end at zero counts for nothing. |
| FoldingMatches.BlocksRunToTheirEnds | src/providers/folding/OfflineFoldingScanner.ts:239-263 | In that pass the ranges for blocks are exactly those from an opener to the end on a later line that matches it by counting. |
| FoldingMatches.MatchIsFolded | src/providers/folding/OfflineFoldingScanner.ts:239-263 | So what a scan returns has a range for every opener and the end that matches it on a later line. |
| FoldingShape.SectionsAndCasesEnd | src/providers/folding/OfflineFoldingScanner.ts:143-160 | In the pass for functions closed by end a section runs exactly to the line above the next section, case, else, catch or end of the block it is in, and a case to the line above the next case or the end of its switch. |
| FoldingFunctions.EndlessPassIsAskedFor | src/providers/folding/OfflineFoldingScanner.ts:297-297 | The two facts that ask for the second pass, said of the tokens: whether some end closed a function, and whether a function is open at the end. |
| FoldingFunctions.BodyIsSeen | src/providers/folding/OfflineFoldingScanner.ts:287-292 | The body of an open function counts as seen if and only if some line below its first, read with just that function innermost, starts a statement and touches no arguments block. |
| FoldingFunctions.FunctionCloses | src/providers/folding/OfflineFoldingScanner.ts:92-134 | Where functions have no end, a function closes after its last line of code, and so does the section directly inside it; one that starts below that line goes on in the enclosing scope instead. |
| FoldingFunctions.FunctionOpensAlone | src/providers/folding/OfflineFoldingScanner.ts:240-249 | Where functions have no end, a function that opens first takes off the one before it with all that is open inside, and no other block. |
| FoldingFunctions.EndlessFunctionRange | src/providers/folding/OfflineFoldingScanner.ts:92-134 | The range of a function without end stops at a line of code, with only blank and comment lines from there to where the function closes. |
| FoldingScanner.Scanner.ScanLine | src/providers/folding/OfflineFoldingScanner.ts:136-293 | A line of any kind keeps every invariant: the count of function frames is that of the stack, open sections have increasing starts and depths not above the stack, and the emitted ranges are those of distinct items that have ended. |
| FoldingScanner.Scanner.Finish | src/providers/folding/OfflineFoldingScanner.ts:295-306 | At the end the emitted ranges are exactly those that block comments, comment runs and the events of the trace call for, each once, and the second pass is asked for exactly when no function was closed by end and one is open. |
| FoldingScanner.Scan | src/providers/folding/OfflineFoldingScanner.ts:45-307 | One pass returns exactly the ranges the document calls for, each once, sorted by start and then longest first, so the output is a sorted permutation of what was emitted. |
| FoldingScanner.ComputeFoldingRanges | src/providers/folding/OfflineFoldingScanner.ts:39-43 | The pass for functions without end replaces the first one exactly when it is asked for. |
| FoldingScanner.SortRanges | src/providers/folding/OfflineFoldingScanner.ts:305-305 | The sort is by start line and then by end line, longest first, and a permutation. |
| FoldingShape.RangesInside | src/providers/folding/OfflineFoldingScanner.ts:55-59 | In both passes every range satisfies 0 <= start < end <= last line. |
| FoldingShape.OpenSectionReachesEnd | src/providers/folding/OfflineFoldingScanner.ts:303-303 | A section that nothing ends reaches the last line of the document, or the one before it when the document ends with a line break. |
| FoldingShape.RangesNestedExactly | src/providers/folding/OfflineFoldingScanner.ts:61-306 | In the pass for functions closed by end, any two ranges (blocks, cases, sections, comment runs, block comments) are nested or disjoint, except exactly when a block closes on the line where the other opens later, or a section or case closes on the line where a block does that opened inside it lower down. |
| FoldingShape.RangesNested | src/providers/folding/OfflineFoldingScanner.ts:61-306 | So any two ranges are nested or disjoint when no line carries two block events. |
| FoldingEndless.AtMostOneFunctionOpen | src/providers/folding/OfflineFoldingScanner.ts:240-249 | In the pass for functions without end, at most one function is open before every line, before and after every token, and while blocks are closed, and none is open at the end. |
| FoldingEndless.FunctionRangesShareOneLine | src/providers/folding/OfflineFoldingScanner.ts:241-249 | In that pass the ranges of two functions share at most one line. |
| FoldingEndless.TwoEventsOverlap | src/providers/folding/OfflineFoldingScanner.ts:239-279 | A document with two block keywords on one line and two ranges that overlap without nesting. |
| ProcessTree.ListDescendantsDeepestFirst | src/lifecycle/ProcessTree.ts:76-102 | For every process table, cycles included, the search ends and returns exactly the processes reachable from the root other than the root, each once, each with a parent that is the root or comes later, and none nearer to the root than one listed after it. |
| ProcessTree.BeforeItsParent | src/lifecycle/ProcessTree.ts:68-75 | With distinct pids every listed process comes before its parent. |
| ProcessKill.StopListed | src/lifecycle/ProcessTree.ts:138-143 | Each listed process that has had none is sent one SIGSTOP, the last listed first. |
| ProcessKill.ParentsStopFirst | src/lifecycle/ProcessTree.ts:138-143 | Within a listing a process is sent its SIGSTOP only after a parent of it, unless that is the root or has had one. |
| ProcessKill.Freeze | src/lifecycle/ProcessTree.ts:134-159 | In every run of the system beside the loop, every process that any listing showed below the root is in the kill order, settled or not, and the order starts with the tree of the last listing, deepest first. The loop goes on while a listing shows a frozen process running, and gives up only when a listing fails or after exactly ten; when it settles, every process that descends from the root is in the order. |
| ProcessKill.KillOrder | src/lifecycle/ProcessTree.ts:161-161 | The order of the kill is a permutation of the frozen processes, with the root last. |
| ProcessKill.KillProcessTree | src/lifecycle/ProcessTree.ts:116-165 | SIGKILL is sent to exactly the processes sent a SIGSTOP, each once and the root last, and every process that any of the at most ten listings showed below the root is among them, settled or not; when the loop settled no descendant of the root is left out. |
| GlobSyntax.SplitSegments | src/indexing/workspace/ExcludeGlobs.ts:147-161 | The loop over indices splits at each slash outside a group. |
| GlobSyntax.SegmentsJoined | src/indexing/workspace/ExcludeGlobs.ts:146-161 | The segments joined with slashes are the glob. |
| GlobGroups.SegmentsAreBetweenCuts | src/indexing/workspace/ExcludeGlobs.ts:147-161 | A glob is cut at exactly the slashes that stand outside of groups. |
| ExcludeGlobs.Translate | src/indexing/workspace/ExcludeGlobs.ts:125-144 | The translation of a glob, with its special case for globstars alone and its collapsing of repeated globstars. |
| ExcludeGlobs.TranslateSegment | src/indexing/workspace/ExcludeGlobs.ts:163-189 | The translation of a segment, with its collapsing of star runs and its groups, each alternative a glob of its own. |
| GlobGroups.PiecesTake | src/indexing/workspace/ExcludeGlobs.ts:125-144 | Segment by segment, groups included: an inner globstar takes any number of whole names, a last one the rest without line breaks, and any other segment what its translation takes, with a slash between. |
| GlobGroups.GroupTakes | src/indexing/workspace/ExcludeGlobs.ts:174-186 | A group accepts a text if and only if one of its alternatives does as a glob of its own, followed by what the rest of the segment accepts; an empty last alternative counts only when it is the only one. |
| GlobGroups.CharacterTakes | src/indexing/workspace/ExcludeGlobs.ts:163-189 | Outside of groups a star takes any characters but slashes, and every other character just itself. |
| ExcludeGlobs.CollapseKeepsLanguage | src/indexing/workspace/ExcludeGlobs.ts:137-140 | Collapsing adjacent globstars and runs of stars never changes which strings the regular expression accepts, groups included. |
| GlobLanguage.TranslationIsExact | src/indexing/workspace/ExcludeGlobs.ts:125-189 | For every glob without braces and every path, the regular expression accepts the path if and only if a direct matcher of segments does: an inner globstar is zero or more names, a trailing one at least one and without line breaks, a star stays within a name; globstars alone take any path without line breaks. |
| GlobLanguage.TranslationIsMeaning | src/indexing/workspace/ExcludeGlobs.ts:125-189 | So a glob that does not end in a globstar accepts exactly the paths it means, and any glob does so for paths without line breaks. |
| GlobLanguage.LineBreakIsMissed | src/indexing/workspace/ExcludeGlobs.ts:127-131 | A glob that ends in a globstar means a name with a line break and does not accept it. |
| ExcludeMatcher.HasNestedOrUnbalancedBraces | src/indexing/workspace/ExcludeGlobs.ts:99-115 | Answers whether the braces fail to be balanced groups of depth one, counted over every prefix. |
| ExcludeMatcher.GroupsArePaired | src/indexing/workspace/ExcludeGlobs.ts:99-115 | Braces are balanced groups of depth one if and only if every brace is one of a pair with no brace between. |
| ExcludeMatcher.GlobsAre | src/indexing/workspace/ExcludeGlobs.ts:64-72 | A glob excludes if and only if some key of a map stands for it: its value is true, it has no question mark, square bracket or brace without a partner, and the glob is the key less the blanks at its end and then one slash. |
| ExcludeMatcher.CompileExcludes | src/indexing/workspace/ExcludeGlobs.ts:55-79 | Compiles, in order, the globs of exactly the keys that exclude and are supported, trimmed at the end, and for each that ends in a slash and globstar also the folder it empties. |
| ExcludeMatcher.ExcludesWhatGlobsTake | src/indexing/workspace/ExcludeGlobs.ts:76-78 | With brace-free keys any path is left out if and only if one of the globs takes its names, or it is a folder that one of them empties. |
| ExcludeMatcher.EmptiedFolderHoldsNothing | src/indexing/workspace/ExcludeGlobs.ts:57-72 | Whatever a folder pattern accepts, braces included, the glob it came from accepts every path below it without line breaks. |
| ExcludeMatcher.SkippingIsExcluding | src/indexing/workspace/ExcludeGlobs.ts:68-78 | Of a folder the matcher would skip, it leaves out every path whose part below the folder has no line break. |
| FileWalk.Walker.Walk | src/indexing/workspace/WorkspaceFileWalker.ts:47-76 | The recursive walk adds to the shared list exactly the listing of the folder, in order. |
| FileWalk.FindMatlabFiles | src/indexing/workspace/WorkspaceFileWalker.ts:41-45 | The walk of a folder returns its listing. |
| FileWalk.ListingIsExact | src/indexing/workspace/WorkspaceFileWalker.ts:29-76 | A path is listed if and only if it leads through readable folders that are no links to a file that is no link and whose name ends in .m, with neither it nor a folder on the way left out. |
| FileWalk.ListedOnce | src/indexing/workspace/WorkspaceFileWalker.ts:29-32 | With names that are unique in each folder no file is listed twice. |
| FileWalk.PruningIsExact | src/indexing/workspace/WorkspaceFileWalker.ts:68-71 | On every tree the walk that skips emptied folders lists, in the same order, exactly the files of the walk without that pruning that do not go through an emptied folder. |
| FileWalk.LostHasLineBreak | src/indexing/workspace/WorkspaceFileWalker.ts:68-71 | A file that is lost by skipping a folder has a line break in a name below that folder. |
| FileWalk.PruningLosesNothing | src/indexing/workspace/WorkspaceFileWalker.ts:68-71 | So on every tree of names without line breaks the two walks list the same files in the same order. |
| FileWalk.LineBreakIsLost | src/indexing/workspace/ExcludeGlobs.ts:68-78 | A tree with a line break in a name on which the two walks differ. |
| ArgumentDeclarations.FindDefaultAssignment | src/providers/hover/ArgumentsBlockParser.ts:320-358 | Returns the first assignment sign outside of texts and brackets that is not part of a comparison, or -1; a doubled quote ends a text and starts it again. |
| ArgumentDeclarations.MatchDelimiter | src/providers/hover/ArgumentsBlockParser.ts:370-404 | Returns the first place where the bracket that opens at an index closes, outside of texts, or -1. |
| ArgumentDeclarations.ParseDeclarationBody | src/providers/hover/ArgumentsBlockParser.ts:269-312 | The parts of a declaration are taken in the order default, size, validators, class. |
| ArgumentRoundTrip.ReadsWhatIsPrinted | src/providers/hover/ArgumentsBlockParser.ts:269-312 | Reading undoes printing: for balanced size and validators, quoted text allowed, a class of words with single blanks and without brackets, quotes and the assignment sign, and any trimmed default that is not empty, the parts are read back as they were, with any blanks around them. |
| ArgumentTexts.GroupsAreGroups | src/providers/hover/ArgumentsBlockParser.ts:370-404 | A bracket and its partner around any characters, quoted texts and bracketed groups are balanced for both scans, whatever stands in the quotes. |
| ArgumentTexts.DefaultStarts | src/providers/hover/ArgumentsBlockParser.ts:320-358 | The default value is what follows the first assignment sign that stands outside of quoted texts and groups and is in no comparison, trimmed, and none when nothing follows. |
| ArgumentTexts.SizeIsTaken | src/providers/hover/ArgumentsBlockParser.ts:284-291 | A group of parentheses at the start is the size, as written. |
| ArgumentTexts.ValidatorsAreTaken | src/providers/hover/ArgumentsBlockParser.ts:293-304 | The first group of braces holds the validators, and the text before and after it is joined by a blank. |
| ArgumentTexts.RunsAreOneBlank | src/providers/hover/ArgumentsBlockParser.ts:306-309 | In a class each run of whitespace becomes one blank, and words stay as they are. |
| ArgumentTexts.ReadsWhatIsWritten | src/providers/hover/ArgumentsBlockParser.ts:269-312 | So a size and validators made of characters, quoted texts and groups, a class and a default value are read back from print. |
| ArgumentRoundTrip.ReadsItsRow | src/providers/hover/ArgumentsBlockParser.ts:558-572 | A row starts with the name, and what follows the name is read back as the parts it was printed from. |
| ArgumentRoundTrip.TableReadsBack | src/providers/hover/ArgumentsBlockParser.ts:558-576 | So every row of a table, padded to the widest name, is read back. |
| DocumentSymbols.NestSymbolEntries | src/providers/navigation/DocumentSymbolTree.ts:46-77 | The loop that mutates children and the stack of open symbols builds objects that show exactly the specified forest of the sorted entries. |
| SymbolForest.SortSorts | src/providers/navigation/DocumentSymbolTree.ts:47-51 | The entries are sorted by start, and for the same start the larger first. |
| SymbolForest.SortedByStart | src/providers/navigation/DocumentSymbolTree.ts:47-51 | Said of the positions: of two entries in sorted order the first starts earlier, or they start together and it ends no earlier. |
| SymbolForest.SortIsStable | src/providers/navigation/DocumentSymbolTree.ts:47-51 | Entries of the same range keep their order. |
| SymbolForest.InsideIsCovered | src/providers/navigation/DocumentSymbolTree.ts:79-81 | One range is strictly inside another if and only if every position in it is in the other and some position of the other is not in it. |
| SymbolForest.PreorderIsSortedInput | src/providers/navigation/DocumentSymbolTree.ts:46-77 | The forest read in preorder is exactly the sorted input, so nothing is lost, added or duplicated. |
| SymbolForest.ChildrenAreInside | src/providers/navigation/DocumentSymbolTree.ts:63-72 | For any ranges, every child lies strictly inside its parent. |
| SymbolForest.ParentsAreSmallest | src/providers/navigation/DocumentSymbolTree.ts:38-45 | When the ranges are nested or disjoint, empty ones and shared ends included, each parent is a minimal range strictly around the child among all entries, and a root has none around it. |
| Continuations.JoinContinuations | src/providers/hover/OfflineHoverBuilder.ts:286-304 | The loop joins line by line, drops the dots and the blanks around them, and records where each line starts and what indentation it lost. |
| Continuations.OneJoint | src/providers/hover/OfflineHoverBuilder.ts:294-302 | A text that ends in dots with blanks around them goes on with the next line: what stood before them, one blank, and that line without its indentation. |
| Continuations.NothingIsLost | src/providers/hover/OfflineHoverBuilder.ts:286-304 | Every character that is not blank and not of the dots of a joint is in the joined text, in order. |
| Continuations.DeclaredName | src/providers/hover/OfflineHoverBuilder.ts:220-229 | Locates an offset by the last line that starts at or before it. |
| Continuations.JoinedMapsBack | src/providers/hover/OfflineHoverBuilder.ts:286-304 | For any lines, every character of the joined text that is not blank is in the document where the recorded starts and indentations locate it, though later joints shorten earlier text, and a word is never spread over two lines. |
| Continuations.NameIsSpelled | src/providers/hover/OfflineHoverBuilder.ts:176-193 | So the range reported for a name without blanks spells that name in the document. |
| LifecycleManager.MatlabSession.Shutdown | src/lifecycle/MatlabSession.ts:406-419 | A session ends once: the first shutdown is reported to whoever listens, and a later one changes nothing. |
| LifecycleManager.PendingConnection.SetSession | src/lifecycle/MatlabLifecycleManager.ts:240-245 | An attempt keeps its session, and ends it at once when the attempt was stopped. |
| LifecycleManager.PendingConnection.Stop | src/lifecycle/MatlabLifecycleManager.ts:247-256 | Stopping an attempt ends the session it has; one without a session reports itself that it is over. |
| LifecycleManager.MatlabLifecycleManager.ConnectToMatlab | src/lifecycle/MatlabLifecycleManager.ts:73-104 | Takes the connect step and answers with what there is: a refusal in an untrusted workspace, the active session, the promise of the attempt under way, or that of a new tracked attempt. |
| LifecycleManager.MatlabLifecycleManager.InstallWhenConnected | src/lifecycle/MatlabLifecycleManager.ts:198-225 | Takes the step that follows the launch or attach: untracks the attempt if it is still the tracked one, and then fails, ends a late session, or installs it; a stopped attempt always comes to the error for that. |
| LifecycleManager.MatlabLifecycleManager.DisconnectFromMatlab | src/lifecycle/MatlabLifecycleManager.ts:112-128 | Takes the disconnect step: stops the attempt under way, or ends the installed session. |
| Lifecycle.EveryRunKeeps | src/lifecycle/MatlabLifecycleManager.ts:11-226 | In every reachable state the pending attempt and the promise are set together and never beside a session, the pending attempt is the only unfinished one that is not stopped, a stopped attempt was not installed and its session is ended, and a valid installed session is the tracked one. |
| Lifecycle.EveryRunReports | src/lifecycle/MatlabLifecycleManager.ts:218-223 | In every reachable state connected was reported for exactly the sessions that were installed. |
| Lifecycle.ConnectsOnce | src/lifecycle/MatlabLifecycleManager.ts:73-104 | In every reachable state an attempt is started exactly when there is trust and neither a session nor a promise, and otherwise nothing changes. |
| Lifecycle.EndingIsReported | src/lifecycle/MatlabLifecycleManager.ts:218-222 | In every reachable state the end of a session that had not ended is reported and forgets the session exactly when it is the installed one. |
| Lifecycle.ContinuesExactly | src/lifecycle/MatlabLifecycleManager.ts:198-225 | In every reachable state what follows a launch or attach installs, watches and reports its session exactly when it connected and was not stopped, drops the tracking exactly when it was not stopped, and changes nothing else but how the attempt ended. |
| Lifecycle.DisconnectsExactly | src/lifecycle/MatlabLifecycleManager.ts:112-128 | In every reachable state a disconnect stops the pending attempt and ends its session without a report, or else ends and forgets the installed session, reported once more than by the session itself, or else changes nothing. |
| Lifecycle.ReceivesSession | src/lifecycle/MatlabLifecycleManager.ts:240-245 | A session an attempt receives is ended at once exactly when the attempt was stopped. |
| Lifecycle.StoppedIsNeverInstalled | src/lifecycle/MatlabLifecycleManager.ts:190-257 | Whatever happens after an attempt is stopped, it is never installed, never reported as connected, and any session it ever received is ended. |
| Lifecycle.StoppedContinuesAlone | src/lifecycle/MatlabLifecycleManager.ts:204-216 | When what waits for a stopped attempt goes on, nothing changes but that attempt: a newer attempt stays tracked and an installed session stays installed. |
| Lifecycle.PendingIsInstalled | src/lifecycle/MatlabLifecycleManager.ts:204-224 | An attempt that connects and was not stopped is the tracked one, is installed, and is reported once. |
| Lifecycle.DisconnectLeavesNothing | src/lifecycle/MatlabLifecycleManager.ts:112-128 | After a disconnect in any reachable state there is no session, no attempt and no promise, and every installed session is ended. |
| Lifecycle.EndedSessionIsInstalled | src/lifecycle/MatlabLifecycleManager.ts:212-224 | A run in which a session that ended before it was installed is installed all the same and stays. |
| Indexing.FileInfoIndex.ParseAndStoreCodeInfo | src/indexing/FileInfoIndex.ts:196-198 | Afterwards the index holds this code info for the file and no fallback declarations, no file is in both maps if none was, and what it holds for other files is unchanged. |
| Indexing.FileInfoIndex.StoreFallbackDeclarations | src/indexing/FileInfoIndex.ts:210-213 | Afterwards the index holds these declarations for the file in place of any code info, no file is in both maps if none was, and what it holds for other files is unchanged. |
| Indexing.Indexer.ClaimNewestParse | src/indexing/Indexer.ts:422-428 | A parse is claimed if and only if no newer one of the file was stored, and a claim records it. |
| Indexing.Indexer.EndIndexDocument | src/indexing/Indexer.ts:131-165 | What follows the answer to the parse of a document, in all its branches, is the step of the parse order. |
| Indexing.Indexer.EndIndexFile | src/indexing/Indexer.ts:345-349 | What follows the answer to the parse of a file is the step of the parse order. |
| Indexing.Indexer.OnFileCrawled | src/indexing/Indexer.ts:285-295 | Whatever request is recorded, a crawl that has something to store replaces what the index holds for the file, and any other crawl leaves it. |
| ParseOrder.EveryRunKeepsThemApart | src/indexing/FileInfoIndex.ts:196-213 | In every run, crawls and folder removals included, no file has both code info and fallback declarations. |
| ParseOrder.NewestNeverDecreases | src/indexing/Indexer.ts:422-428 | The request id recorded for a file never decreases, over any continuation of any run. |
| ParseOrder.HeldIsLastTouch | src/indexing/Indexer.ts:120-166 | In every run, crawls and removals included, the index holds the report of a crawl if and only if the last event that touched the file is a crawl, and the result of a parse if and only if that event is the end of a parse, which is then the recorded request. |
| ParseOrder.LastAnswerDecides | src/indexing/Indexer.ts:131-165 | In every run a file has code info if and only if the last event that touched it had a good answer, and fallback declarations if and only if that had a syntax error. |
| ParseOrder.SyntaxErrorKeepsCodeInfo | src/indexing/Indexer.ts:131-144 | A syntax error in a document that has code info changes nothing of the index, and neither does an answer without data. |
| ParseOrder.EveryRunHoldsNewest | src/indexing/Indexer.ts:120-166 | In every run in which a crawl did not touch the file last, what the index holds is the result of the recorded request, and no successful parse of the file is newer than it. |
| ParseOrder.HeldTextIsNewestExactly | src/indexing/Indexer.ts:90-93 | What is held of a parse is of the newest text that parsed, if and only if no file was parsed with success that got its id before the held parse and was read after it. |
| ParseOrder.HeldTextIsNewest | src/indexing/Indexer.ts:90-93 | So for a file parsed only as a document, the entry is of the newest text that parsed. |
| ParseOrder.FileTextCanBeNewer | src/indexing/Indexer.ts:339-343 | A run in which a file is read after a later request got its id, so the entry is of older text. |
| ParseOrder.CrawlCanRollBack | src/indexing/Indexer.ts:285-295 | A run in which a crawl replaces the result of a parse. |
| ExceptionRequests.SplitListed | src/debug/exceptions/ExceptionFilters.ts:232-234 | Identifiers with any commas and blanks around them, and some between, are read as they are. |
| ExceptionRequests.WordsAreIdentifiers | src/debug/exceptions/ExceptionFilters.ts:232-234 | What is read from any text is identifiers: not empty, and without separators. |
| ExceptionRequests.ParseExceptionArguments | src/debug/exceptions/ExceptionFilters.ts:97-114 | Every option is answered in order, and the wanted conditions are exactly the known filters asked for, each with the identifiers of its last option. |
| ExceptionRequests.LastOptionDecides | src/debug/exceptions/ExceptionFilters.ts:97-114 | Of the four filters exactly those that some option names are wanted; for errors, caught errors and warnings the identifiers typed in the last such option, and every identifier where none is typed or the filter takes none. |
| ExceptionRequests.BreakpointIds | src/debug/exceptions/ExceptionFilters.ts:161-168 | The four filters have the ids from 100001 on in their order, and no other filter has one. |
| ExceptionRequests.AnswersAre | src/debug/MatlabDebugAdaptor.ts:444-451 | Plain filters are answered first and then filter options, one answer each: verified if and only if the filter is one of the four and no command for it failed. |
| StopConditions.PlanConditionCommands | src/debug/exceptions/ExceptionFilters.ts:122-141 | The loop plans, condition by condition, a clear where something was recorded and the stops of what is wanted, and nothing where both agree. |
| StopConditions.PlanIsExactly | src/debug/exceptions/ExceptionFilters.ts:122-141 | The plan takes the four conditions in order; for one whose record is not what is wanted it clears what was recorded and then stops for each wanted identifier, or once for all, and for any other it has no command. |
| StopConditionRuns.EveryRunAgreesExactly | src/debug/MatlabDebugAdaptor.ts:423-442 | In every run of requests with failing commands, restarts, and terminal clears anywhere, also between the commands of a request: whenever no request is under way, what is recorded for a condition agrees with MATLAB if and only if no clear of it is lost, and what is not recorded is not set. |
| StopConditionRuns.EveryRunAgrees | src/debug/exceptions/ExceptionFilters.ts:122-159 | Over any run in which no clear lands in a request that wants the condition and does not restore it, a condition recorded with a list is set in MATLAB to exactly that list, and an unrecorded one is not set. |
| StopConditionRuns.RequestAgreesExactly | src/debug/MatlabDebugAdaptor.ts:428-442 | After a request a wanted condition none of whose commands failed agrees with MATLAB if and only if its last clear during the request landed before its first stop, or left what together with the stops ahead is the whole list; without such a clear, if and only if it agreed before or the request changed it. |
| StopConditionRuns.RestoresAfterClearAll | src/debug/MatlabDebugAdaptor.ts:428-442 | After a clear of the whole condition that is so exactly when the first stop is still ahead or the stops ahead cover the whole list. |
| StopConditionRuns.OneRequestSuffices | src/debug/MatlabDebugAdaptor.ts:423-442 | One request without failures and without clears during it brings every condition to what is wanted and records it, whatever was recorded before in a run that agrees. |
| StopConditionRuns.FailedExactly | src/debug/MatlabDebugAdaptor.ts:428-442 | A request counts a condition as failed if and only if MATLAB answered some command of the plan for it with a failure. |
| StopConditions.PlansNothing | src/debug/exceptions/ExceptionFilters.ts:122-141 | A request plans no command if and only if it asks for exactly what is recorded. |
| StopConditionRuns.RepeatingPlansNothing | src/debug/exceptions/ExceptionFilters.ts:116-121 | Repeating a request that had no failure plans no command, after any run. |
| StopConditionRuns.ClearDuringRequest | src/debug/MatlabDebugAdaptor.ts:428-442 | A run in which a clear lands between the two commands of a request: the condition is recorded as set and is not, and asking for the same again changes nothing. |
| ExceptionRequests.MatlabDebugAdaptor.SetExceptionBreakpointsRequest | src/debug/MatlabDebugAdaptor.ts:423-452 | The loop over the commands, with whatever clears are typed while it waits, and the replacement of the recorded conditions are one request of the run so far, and each filter is answered as verified exactly when it is known and none of its commands failed. |
| ExceptionRequests.MatlabDebugAdaptor.TypeClear | src/debug/exceptions/ExceptionFilters.ts:149-159 | A clear in MATLAB and what its report makes of the recorded conditions are one clear of the run so far. |
| ExceptionRequests.VerifiedIsSet | src/debug/MatlabDebugAdaptor.ts:444-452 | A filter answered as verified is set in MATLAB to exactly the identifiers asked for, after any run, if and only if no clear of it is lost. |

## Left out

- Classes: methods, properties and class folders in the symbol search. The scope tree models files without class
  information, for which the global sweep's labels are right.
- Building the scope tree from raw code data, and finding the identifier at a position.
- Character-level lexing in the folding scanner: each line comes classified, with its keywords, brackets and whether it
  continues. Regular expressions over lines are not modelled.
- Laminarity of folding ranges in the pass for functions without end, which the code does not promise.
- The Windows branch of the process tree kill, reading the text of the process table, and pids that are given out again
  while the loop runs.
- Liveness of the freeze loop: it may give up after ten listings, and then what is claimed is the order of the kill and
  that nothing a listing showed below the root is left out.
- Escaping: globs are translated to a syntax tree of regular expressions. Merging the settings of VS Code is not
  modelled.
- GlobLanguage.TranslationIsExact: speaks of globs without braces. Globs with groups are covered piece by piece, since
  an alternative is a glob of its own: `GlobGroups.PiecesTake`, `GroupTakes` and `CharacterTakes`.
- The root folder and the separators of absolute paths in the walk: a path is the list of names below the root. The
  file system does not change while it is walked.
- Finding the argument blocks of a file, their comments and descriptions, and the headings of the table by kind.
- The regular expressions that find the declaration and the name in a joined text; `Continuations.NameIsSpelled` takes
  the offset of a name they found.
- The phases of a launch of MATLAB (licensing, watching for the connection file, notifications). A launch or attach
  receives at most one session, and connects only with it. Listeners outside the lifecycle manager are not modelled.
- The alternation of connected and disconnected reports: an explicit disconnect reports through two ways.
- The background pool, time-outs and subscriptions of parses: an answer is any of no data, a syntax error or code info.
- Class information shared between files of a class folder when code info is stored.
- A clear that MATLAB reports late, after the request it landed in has ended.
- Conditions of program-wide breakpoints that someone else sets in the terminal; messages of failed commands; the events
  for changed filters.
