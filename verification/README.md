# ShutterSense: verified model of the pipeline engine, the naming grammar and the agent's job protocol

ShutterSense describes a photo workflow as a directed graph of Capture, File, Process, Pairing, Branching and
Termination nodes. The engine checks the graph, lists every bounded run through it, turns runs into expected file names
and judges the files of an image against them. Agents fetch jobs from a server, run the tools, upload results in chunks
and report exactly one end per job. This project models that logic in Dafny and proves what it promises; where the code
does not keep a promise, the exact condition under which it does is proved instead.

`dafny verify dfyconfig.toml` checks everything.

## How the files fit together

| files | content |
|---|---|
| `Options`, `Sorting`, `Text` | option type, `sorted`, and the string operations the code uses (order, case, split, join, numerals) |
| `Walks`, `Pipelines` | walks, cycles and reachability in a graph; nodes and pipeline configurations |
| `PipelineGraph`, `StructureValidator` | adjacency lists, Kahn's sort, worklist reachability; the two structure checkers |
| `Runs` | what a run through a pipeline is, for every kind of search, without saying how it is found |
| `Enumeration`, `EnumerationTheorems`, `EnumerationOrder` | the order in which a depth-first search meets its runs, and that it lists all of them; truncation, coverage, halting, length; the order without the search |
| `Merge`, `PairingOrder`, `Pairing` | merging at Pairing nodes, their processing order, the staged enumeration |
| `PairingTheorems`, `PairingStages` | one Pairing node: every path, when there is one, which nodes occur; any number of them: which are reached, and how paths end |
| `ExpectedFiles`, `FilenameParser`, `PhotoPairing`, `FilenameRoundTrip` | printing names, parsing names, grouping files, and the round trip across all three |
| `ImageValidation`, `CollectionValidation`, `Verdicts` | per-image and bulk verdicts, how they relate, and which types are judged |
| `ConfigBuilder`, `ConfigMeaning`, `ConfigVerdicts` | the two routes from JSON to a configuration, when they agree, and why their whole enumerations and all verdicts then do |
| `Counterexamples` | concrete inputs on which the code does not do what its documentation promises |
| `InputState` | the canonical texts behind "nothing has changed" |
| `ChunkedUpload`, `JobExecutor`, `PollingLoop`, `Cancellation` | the agent's protocol with an arbitrary network, arbitrary exceptions and arbitrary interleaving of commands |

Runs are specified by `Run` (a chain of visits, each to an output of the node before, at most five visits to a File,
Process or Branching node, closed by the step that ends it or by the truncation marker). Searches are methods proved
to return exactly the runs of their mode: whether there is a target, and whether a Pairing node raises, turns back or
is passed, in a fixed order: `RunsVia` lists them method by method and output by output, `PathList` those of a whole
pipeline, stage by stage, and for each list a lemma says which paths are in it. So a verdict is determined by pipeline
and image, also where several paths are equally good. In the agent's protocol the outside world is a parameter:
`answers` fixes how each network request ends, a `Script` how each awaited call of a job ends, a list of `Poll`s what
each poll brings. All theorems hold for every choice of these.

## Where code and documentation part

- `topological_sort` promises an empty list on a cyclic graph (`utils/pipeline_processor.py:1481`); it returns the
  longest order it found, without exactly the nodes some cycle leads to (`TopologicalOrders.LeftOutExactly`). On a
  Capture in front of a loop it returns the Capture: `Counterexamples.CyclicOrderIsNotEmpty`.
- Enumeration is documented as bounded by five visits per node, but Capture nodes are not counted: the depth of the
  search is bounded from every Capture exactly when no cycle consists of Captures only
  (`EnumerationTheorems.HaltsExactly`). On an unbounded pipeline it can still return early, by raising at a Pairing
  node. A Capture that outputs to itself: `Counterexamples.CaptureLoopNeverEnds`.
- A Process with several methods that feeds a Pairing node directly yields no run at all. With one Pairing node, when
  there is any path is decided by `PairingTheorems.PairingPathExists`; a pipeline that passes both structure checkers
  and the input check and has none: `Counterexamples.SeveralMethodsYieldNothing`.
- With several Pairing nodes, each stage starts only from paths the stage before left open. A Pairing node is
  therefore only reached behind all earlier ones, each leading to the next (`PairingStages.PairingsAreChained`). Which
  Pairing nodes of an acyclic pipeline are on a path is decided by walks in the graph
  (`PairingStages.PairingReachedExactly`): that one or a later one must lead to an end, and both inputs of it and of
  all earlier ones must be fed, from a Capture for the first and from the predecessor for the others. Two unrelated
  Pairing nodes, of which the second is lost: `Counterexamples.UnrelatedPairingIsLost`.
- The structure checker counts output entries into a Pairing node, the enumeration counts nodes: they disagree exactly
  when a node lists it more than once (`PairingPieces.InputChecksDifferExactly`). A Capture that lists the Pairing
  node twice passes both structure checkers, and the enumeration raises:
  `Counterexamples.RepeatedOutputPassesAndRaises`.
- `validate_filename` accepts names whose extension is bad or missing; `parse_filename` then raises exactly when there
  is no dot (`FilenameParsing.AcceptsExactly`, `FilenameParsing.RaisesExactly`). AB3D0001 is such a name:
  `Counterexamples.DotlessNameRaises`.
- An all-digit method id takes the place of the suffix as separate image (`FilenameRoundTrip.SuffixSurvivesExactly`).
  Method 2 and suffix 3: `Counterexamples.NumericMethodTakesOver`.
- Without a Capture the two structure checkers disagree: one reports only the missing Capture, the other every node as
  unreachable (`StructureValidators.CheckersDifferWithoutCapture`).
- A job whose completion was acknowledged can still leave `execute` by an exception, exactly when closing the progress
  reporter is cut short (`JobExecutors.OneTerminalOutcome`). One such job: `JobCounterexamples.CompletedYetRaised`.

## Model

| member | source | states |
|---|---|---|
| PipelineGraphs.PipelineGraph.BuildAdjacencyLists | utils/pipeline_processor.py:1439-1454 | children and parents hold the same edges between existing nodes, with multiplicity |
| PipelineGraphs.PipelineGraph.AdjacencyIsTheEdges | utils/pipeline_processor.py:1439-1454 | dangling outputs change neither edges nor walks; parents is the reverse of children |
| PipelineGraphs.PipelineGraph.TopologicalSort | utils/pipeline_processor.py:1476-1511 | no repeats, predecessors first; a cycle is reported iff the graph has a closed walk; exactly the nodes a cycle leads to are left out |
| PipelineGraphs.KahnSort | utils/pipeline_processor.py:1488-1511 | Kahn's loop with in-degrees by multiplicity reaches a maximal topological order |
| TopologicalOrders.LeftOutExactly | utils/pipeline_processor.py:1476-1511 | any order that cannot be extended leaves out exactly the vertices reachable from a cycle |
| Counterexamples.CyclicOrderIsNotEmpty | utils/pipeline_processor.py:1481-1511 | on a Capture in front of a loop the sort returns the Capture, not the empty list |
| PipelineGraphs.PipelineGraph.DfsFromNodes | utils/pipeline_processor.py:1513-1541 | visited is exactly the start ids and everything some walk from a start reaches |
| PipelineGraphs.Search | utils/pipeline_processor.py:1523-1541 | soundness and completeness of the stack search on any graph |
| StructureValidators.StructureValidator.Validate | utils/pipeline_processor.py:1566-1581 | the error list is the cycle, orphan, dead-end, node and method reports, each stated by what it means |
| StructureValidators.StructureValidator.DetectCycles | utils/pipeline_processor.py:1583-1603 | an error iff there is a closed walk, naming exactly the nodes reachable from a cycle |
| StructureValidators.StructureValidator.FindOrphanedNodes | utils/pipeline_processor.py:1605-1639 | reports exactly the nodes no walk from a Capture reaches |
| StructureValidators.StructureValidator.FindDeadEnds | utils/pipeline_processor.py:1641-1687 | reports exactly the nodes with no walk to a Termination |
| StructureValidators.StructureValidator.ValidateNodes | utils/pipeline_processor.py:1689-1749 | one error per node with a missing extension or type, other than two entries into a Pairing, or fewer than two existing outputs of a Branching, in order |
| StructureValidators.StructureValidator.ValidatePropertyReferences | utils/pipeline_processor.py:1751-1786 | one error per use of a method that is not configured, in order; none without configured methods |
| StructureValidators.CleanReport | utils/pipeline_processor.py:1566-1581 | no report at all iff the graph reports are empty, no node is wrong by itself and every method in use is configured |
| StructureValidators.CleanGraph | utils/pipeline_processor.py:1583-1687 | no graph report iff acyclic, with Captures and Terminations, everything reachable and able to end |
| StructureValidators.ReachableIds | utils/pipeline_processor.py:420-431 | the inline loop finds exactly the reachable ids, dangling ones included |
| StructureValidators.ValidatePipelineStructure | utils/pipeline_processor.py:363-437 | the messages of checks 1, 2, 3, 4 and 7, in order, by what they mean; the others report nothing |
| StructureValidators.CheckersAgree | utils/pipeline_processor.py:420-435 | with a Capture, the orphan set and the unreachable set are the same set, dangling outputs or not |
| StructureValidators.CheckersDifferWithoutCapture | utils/pipeline_processor.py:1614-1622 | without one they differ on every pipeline that has nodes |
| StructureValidators.CleanMessages | utils/pipeline_processor.py:363-437 | no message at all iff there are Captures and Terminations, no output dangles, every method in use is configured and every node is reached from a Capture |
| StructureValidators.CleanReportCleanMessages | utils/pipeline_processor.py:363-437 | on a pipeline the graph-based checker passes, the other one finds nothing but dangling outputs |
| Enumeration.PathCollector.Dfs | utils/pipeline_processor.py:479-556 | appends exactly the runs that continue the current path through the node, in their order, or raises when one meets a Pairing node |
| Enumeration.EnumerateAllPaths | utils/pipeline_processor.py:452-562 | sound and complete: exactly the runs from the Captures, truncated ones included, listed Capture by Capture in the order of the search; raises iff one meets a Pairing node |
| Listings.RunsFromExactly | utils/pipeline_processor.py:479-556 | the ordered list of a search holds exactly its runs, for every search mode |
| EnumerationOrder.EnumerationIsOrdered | utils/pipeline_processor.py:452-562 | on an acyclic pipeline that offers nothing twice every path is listed once, and of two paths the one whose first differing choice comes earlier stands first; no other list of these paths does that |
| Runs.ChainReadStepwise | utils/pipeline_processor.py:479-556 | the recursive notion of a chain of visits equals its position-by-position reading: edges, methods, at most five visits |
| Runs.ViaSplits | utils/pipeline_processor.py:508-556 | a run through a node records one emitted visit and either ends there or goes on through an output |
| Runs.NoRoomMeansCut | utils/pipeline_processor.py:492-505 | at a node visited five times the truncated path is the only continuation |
| EnumerationTheorems.NoTruncation | utils/pipeline_processor.py:492-505 | on an acyclic pipeline no run of any search is cut short |
| EnumerationTheorems.CoverageExactly | utils/pipeline_processor.py:537-541 | a node that can end occurs on a complete path iff a walk reaches it without passing a Termination |
| EnumerationTheorems.CleanPipelineIsFullyEnumerated | utils/pipeline_processor.py:452-562 | a pipeline the structure checker passes is enumerated without truncation and with every node on a complete path |
| EnumerationTheorems.HaltsExactly | utils/pipeline_processor.py:492-505 | the search has bounded depth from every Capture iff no cycle consists of Captures only |
| EnumerationTheorems.PathLengthBound | utils/pipeline_processor.py:35-35 | without edges into a Capture the depth is bounded on every pipeline, and paths have at most 5 L + 2 entries |
| SearchSteps.SearchHalts | utils/pipeline_processor.py:479-556 | each recursive call uses up a counted visit or lengthens a walk through uncounted nodes |
| Merging.MergeTwoPaths | utils/pipeline_processor.py:665-692 | the loop with its set of included ids computes the merge |
| Merging.MergeIsUnion | utils/pipeline_processor.py:665-692 | the first path is a prefix, and the visited nodes are the union |
| Merging.MergeAddsEachNodeOnce | utils/pipeline_processor.py:680-690 | what the second path adds is new and added once |
| Merging.MergeIsAssociative | utils/pipeline_processor.py:665-692 | merging three branches does not depend on the grouping |
| PairingOrder.LongestDistances | utils/pipeline_processor.py:592-627 | the loop ends with distances that are a function of the graph; it reaches its round cap iff a cycle lies ahead of a Capture, else it ends early with the longest walk lengths |
| PairingOrder.FinalDistancesAreLongest | utils/pipeline_processor.py:607-627 | without a cycle ahead of the starts the capped relaxation ends with longest walks |
| PairingOrder.RoundsSettle | utils/pipeline_processor.py:611-627 | after n rounds every walk of at most n edges is accounted for, whatever the order of nodes and edges |
| PairingOrder.FindPairingNodesInTopologicalOrder | utils/pipeline_processor.py:569-633 | the Pairing nodes stably sorted by those distances, cycles or not |
| PairingOrder.ProcessingOrderMeans | utils/pipeline_processor.py:629-633 | the order is a rearrangement of the Pairing nodes, nearest first |
| PairingOrder.OrderIsTopological | utils/pipeline_processor.py:629-633 | without a cycle ahead of a Capture, a reachable Pairing node stands strictly before every other it leads to |
| PairingPieces.ValidatePairingNodeInputs | utils/pipeline_processor.py:636-662 | the nodes that list the Pairing as output, in order, if they are two |
| PairingPieces.TwoInputsExactly | utils/pipeline_processor.py:651-660 | the check passes iff two different nodes and no third feed the Pairing node |
| PairingPieces.InputChecksDifferExactly | utils/pipeline_processor.py:1718-1727 | where one of the two input checks passes, they disagree iff some node lists the Pairing node more than once |
| Counterexamples.RepeatedOutputPassesAndRaises | utils/pipeline_processor.py:644-659 | a pipeline that passes both structure checkers and fails the input check of the enumeration |
| TargetSearch.DfsToTarget | utils/pipeline_processor.py:743-849 | the paths are the given one continued by the runs of the mode, all of them and in order; the Pairing node aimed at returns the path before it |
| TargetSearch.ToTargetOnward | utils/pipeline_processor.py:831-849 | the loop over outputs, which skips Pairing nodes at ordinary nodes but enters them behind one of several methods |
| PairingEnumeration.TakeOn | utils/pipeline_processor.py:876-903 | an open path is taken on to an input by every run from its last node, in order, or stays as it is |
| PairingEnumeration.Stage | utils/pipeline_processor.py:856-955 | one Pairing node: all merges of all arriving pairs, continued from every output, in order |
| PairingEnumeration.EnumerateStages | utils/pipeline_processor.py:851-975 | exact for any number of Pairing nodes, as a list: merges, open paths, early ends and paths that pass all Pairing nodes by |
| PairingEnumeration.EnumeratePathsWithPairing | utils/pipeline_processor.py:695-975 | the whole function: raises iff a Pairing node has the wrong number of inputs, else exactly the paths of the pipeline, listed stage by stage in the processing order |
| PairingEnumeration.PathListExactly | utils/pipeline_processor.py:695-975 | the ordered list of a pipeline's paths holds exactly its paths |
| PairingTheorems.TowardsExactly | utils/pipeline_processor.py:826-828 | aiming at an input finds every run to it, or nothing if it is a Process with several methods |
| PairingTheorems.PairingEnumerationExactly | utils/pipeline_processor.py:851-975 | acyclic, one Pairing node, no way around it: exactly the merged pairs of runs to the inputs, the Pairing step and a run to a Termination; nothing if an input is a Process with several methods |
| PairingTheorems.PairingPathExists | utils/pipeline_processor.py:851-975 | there is a path iff no input is a Process with several methods, both inputs are reachable from a Capture, and the Pairing node leads to a Termination |
| PairingTheorems.PairingCoverageExactly | utils/pipeline_processor.py:851-975 | a node is on some path iff it lies between a Capture and an input, or between the Pairing node and the first Termination |
| PairingTheorems.CleanPairingPipelineIsFullyEnumerated | utils/pipeline_processor.py:695-975 | a pipeline with one Pairing node no way leads around that the structure checker passes has no truncated path, and every node is on some path iff no input is a Process with several methods |
| PairingTheorems.AcyclicPipelineHalts | utils/pipeline_processor.py:695-975 | an acyclic pipeline meets the halting condition of every search |
| PairingStages.PairingsFormPrefix | utils/pipeline_processor.py:851-975 | the Pairing nodes on an enumerated path are an initial segment of the order, and the path starts with a merge made at the last of them |
| PairingStages.LaterNeedsEarlier | utils/pipeline_processor.py:856-957 | a Pairing node on a path brings all earlier ones with it |
| PairingStages.PairingsAreChained | utils/pipeline_processor.py:856-957 | cycles or not, every Pairing node before one on a path leads to the next in the order |
| PairingStages.FindsExactly | utils/pipeline_processor.py:743-849 | on an acyclic pipeline a search towards a node finds something iff a walk through ordinary nodes comes to a Termination, to the node unless it has several methods, or, for a Pairing node, to a Process with several methods in front of it |
| PairingStages.PairedExactly | utils/pipeline_processor.py:856-910 | on an acyclic pipeline a Pairing node merges something iff it and all earlier ones have both inputs fed, judged by walks |
| PairingStages.PairingReachedExactly | utils/pipeline_processor.py:851-975 | on an acyclic pipeline a Pairing node is on some path iff from some Pairing node not before it an end can be reached and all up to that one are fed |
| PairingStages.PathsOfPipeline | utils/pipeline_processor.py:695-975 | every path of a pipeline records an initial segment of the processing order, each leading to the next, and on an acyclic pipeline ends at a Termination |
| Counterexamples.UnrelatedPairingIsLost | utils/pipeline_processor.py:876-903 | a pipeline that passes both structure checkers and the input check, with two unrelated Pairing nodes fed by the Capture: the one processed first is on a path, the second on none |
| Counterexamples.SeveralMethodsYieldNothing | utils/pipeline_processor.py:785-794 | a pipeline that passes both structure checkers with its methods configured and the input check, both inputs reachable and an end behind the Pairing node, and no path at all |
| Counterexamples.CaptureLoopNeverEnds | utils/pipeline_processor.py:494-505 | a Capture that outputs to itself has chains of every length |
| PairingStages.AcyclicPathsEnd | utils/pipeline_processor.py:695-975 | on an acyclic pipeline every enumerated path ends at a Termination, whatever the Pairing nodes |
| ExpectedFiles.GenerateExpectedFiles | utils/pipeline_processor.py:1004-1033 | the accumulator loop computes the sorted set of names |
| ExpectedFiles.ExpectedExactly | utils/pipeline_processor.py:982-1033 | exactly one name per File entry with an extension: base, the methods before it, suffix, extension; sorted, no repeats |
| FilenameParsing.AcceptsExactly | utils/filename_parser.py:53-104 | the cascade of tests accepts iff camera id, counter and properties are well formed, whatever the extension |
| FilenameParsing.RaisesExactly | utils/filename_parser.py:107-130 | parsing raises iff the name has no dot and camera id, counter and properties are well formed |
| Counterexamples.DotlessNameRaises | utils/filename_parser.py:126-130 | AB3D0001 is accepted, and parsing it raises |
| FilenameParsing.PrintedNameParsesBack | utils/filename_parser.py:107-147 | a name printed from valid parts parses back to exactly those parts |
| FilenameRoundTrip.ExpectedNameRoundTrip | utils/pipeline_processor.py:1004-1033 | every name a path expects parses back to camera, counter, its methods and suffix, extension, and is grouped under its base with the suffix as separate image |
| FilenameRoundTrip.SuffixSurvivesExactly | agent/src/analysis/photo_pairing_analyzer.py:120-131 | the suffix survives as separate image iff no method before it reads as another number |
| Counterexamples.NumericMethodTakesOver | agent/src/analysis/photo_pairing_analyzer.py:120-131 | method 2 with suffix 3 is filed as separate image 2 |
| PhotoPairing.SplitProperties | agent/src/analysis/photo_pairing_analyzer.py:120-131 | the first all-digit property is the separate image, every other one a method |
| PhotoPairing.BuildImagegroups | agent/src/analysis/photo_pairing_analyzer.py:78-160 | groups by ascending id, each bucket the sorted files with that key and their methods; raises iff a name does |
| PhotoPairing.EveryFileLandsOnce | agent/src/analysis/photo_pairing_analyzer.py:88-138 | every file is, with its multiplicity, in exactly one place: the invalid list or one bucket |
| PhotoPairing.GroupingIgnoresOrder | agent/src/analysis/photo_pairing_analyzer.py:140-160 | permuting the files gives identical groups and the same invalid files |
| PhotoPairing.CalculateAnalytics | agent/src/analysis/photo_pairing_analyzer.py:293-325 | counts of images, files and groups; camera usage per resolved name, summing to the image count |
| PhotoPairing.FilesAreConserved | agent/src/analysis/photo_pairing_analyzer.py:293-325 | file count plus invalid files is the number of input files |
| ImageValidation.StatusMeaning | utils/pipeline_processor.py:1062-1103 | each verdict by what is expected, present and missing |
| ImageValidation.SelectBest | utils/pipeline_processor.py:1175-1261 | the loop returns the first lexicographic optimum: most matches, shortest, best status, fewest missing |
| ImageValidation.BetterIsStrictWeakOrder | utils/pipeline_processor.py:1210-1231 | the comparison is a strict weak order, so the optimum does not depend on the scan beyond ties |
| ImageValidation.ReadyExactly | utils/pipeline_processor.py:1242-1258 | a path makes an image archival-ready iff it expects a file and misses none |
| ImageValidation.GroupByTermination | utils/pipeline_processor.py:1143-1161 | paths by termination type, in order, truncated ones left out |
| ImageValidation.JudgeAgainst | utils/pipeline_processor.py:1143-1285 | against given paths: one best match per termination type with paths, types in the order they first occur; worst status and any readiness overall |
| ImageValidation.VerdictIsUnique | utils/pipeline_processor.py:1143-1285 | list of paths and image determine the verdict, ties between equally good paths included |
| Verdicts.ValidateSpecificImage | utils/pipeline_processor.py:1106-1285 | raises iff a Pairing node has the wrong number of inputs, else judges the image against the paths of the pipeline in their order |
| CollectionValidation.PreviewPaths | utils/pipeline_processor.py:1808-1840 | a name is listed under a type iff some given path of that non-empty type expects it |
| Verdicts.GeneratePreview | utils/pipeline_processor.py:1808-1849 | the preview of exactly the paths of the pipeline, sorted; raises like the enumeration |
| Verdicts.ValidateGroup | utils/pipeline_processor.py:1967-2042 | status and missing files against everything any non-empty type of the pipeline expects, case folded; raises like the enumeration |
| CollectionValidation.BulkRefinesPerImage | utils/pipeline_processor.py:1967-2012 | a CONSISTENT group of slash-free files makes every non-empty type with a path that expects a file archival-ready for the per-image validator |
| Verdicts.ConsistentGroupIsReady | utils/pipeline_processor.py:1967-2042 | from the pipeline: if a group of slash-free files is CONSISTENT, the image with these files is archival-ready for every non-empty type to which some path expects a file |
| Verdicts.CleanPipelineJudgesEveryTermination | utils/pipeline_processor.py:1143-1161 | a pipeline the structure checker passes judges an image for exactly the types its Termination nodes carry |
| Verdicts.CleanPairingPipelineJudgesEveryTermination | utils/pipeline_processor.py:1143-1161 | the same with one Pairing node no way leads around and single-method inputs |
| ConfigBuilding.ConvertDbPipeline | utils/config_manager.py:185-266 | the dictionaries filled from the edges give each node its outputs and a Pairing its input count |
| ConfigBuilding.LoadPipelineConfig | utils/pipeline_processor.py:285-350 | the first thing wrong is the error: no pipelines, no such name, no nodes, or the first node that does not parse; else the parsed nodes, categorized |
| ConfigBuilding.BuildPipelineConfig | agent/src/analysis/pipeline_config_builder.py:31-119 | the nodes built from the edge map, unknown and incomplete ones skipped, categorized |
| ConfigBuilding.KindsFoldAlike | utils/config_manager.py:226-229 | capitalizing and lower-casing recognise the same spellings of the six node types |
| ConfigBuilding.OutputsAgreeExactly | agent/src/analysis/pipeline_config_builder.py:48-60 | both routes read the same outputs of a node iff each edge naming it under "from" has a "to" and none naming it under "source" alone leads anywhere |
| ConfigBuilding.NodeRoutesAgreeExactly | agent/src/analysis/pipeline_config_builder.py:62-105 | both routes produce the same node iff it has an id, a known type, a File extension, no key only one route reads, and such edges |
| ConfigBuilding.RoutesAgreeExactly | agent/src/analysis/pipeline_config_builder.py:48-119 | the routes agree on a whole pipeline iff it has nodes and each one is plain |
| ConfigMeaning.RewordedMerge | utils/pipeline_processor.py:665-692 | merging commutes with replacing branch descriptions |
| ConfigMeaning.OrdersAligned | utils/pipeline_processor.py:569-633 | pipelines that mean the same process corresponding Pairing nodes in the same order and pass the input check alike |
| ConfigMeaning.SameMeaningSamePaths | utils/pipeline_processor.py:695-975 | pipelines that mean the same have the same graph, and their paths correspond one to one up to branch descriptions, with identical expected files, whatever Pairing nodes there are |
| ConfigMeaning.RoutesEnumerateAlike | agent/src/analysis/pipeline_config_builder.py:48-119 | from the raw lists: distinct ids and plain nodes make the whole enumerations of both routes correspond, in both directions |
| ConfigVerdicts.SameMeaningSameList | utils/pipeline_processor.py:695-975 | pipelines that mean the same list the same paths position by position, up to branch descriptions |
| ConfigVerdicts.SameMeaningSameVerdict | utils/pipeline_processor.py:1106-1285 | they give every image the same verdict, ties included, and every group the same status and missing files |
| ConfigVerdicts.RoutesJudgeAlike | agent/src/analysis/pipeline_config_builder.py:48-119 | from the raw lists: distinct ids and plain nodes make both routes judge every image and every group the same |
| InputState.FileListContent | agent/src/input_state.py:112-140 | the loop builds the text: one line per file, sorted by path |
| InputState.ContentIgnoresOrder | agent/src/input_state.py:112-140 | the text does not depend on the listing order |
| InputState.ContentInjective | agent/src/input_state.py:112-140 | on newline-free paths equal texts mean the same files, sizes and times, bars in paths included |
| InputState.ExtractionExactly | agent/src/input_state.py:168-187 | the extracts agree iff the configurations agree on every relevant key |
| InputState.StateTextInjective | agent/src/input_state.py:208-214 | tool name and the two hashes can be read back from the combined text |
| InputState.StateHashExactly | agent/src/input_state.py:189-217 | equal state hashes iff tool, files and relevant configuration are equal |
| InputState.NoChangeExactly | agent/src/input_state.py:256-300 | the comparison says "no change" iff they are equal to the recorded ones |
| ChunkedUpload.PiecesCoverExactly | agent/src/chunked_upload.py:390-397 | the slices make up the content with none empty iff the session's chunk count is the rounded-up quotient, for any server-given sizes |
| ChunkedUpload.TotalChunksLeast | agent/src/chunked_upload.py:312-314 | the chunk count is the least whose slices reach the end |
| ChunkedUpload.PiecesAreBounded | agent/src/chunked_upload.py:394-397 | no slice is longer than the chunk size |
| ChunkedUpload.ChunkedUploadClient.UploadChunk | agent/src/chunked_upload.py:448-502 | one request; an object with status 200 and any reply with 409 acknowledge, every other answer raises its own error, one without an object included |
| ChunkedUpload.ChunkedUploadClient.UploadChunkWithRetry | agent/src/chunked_upload.py:411-446 | only connection failures are retried, at most max_retries tries; the last answer decides, or a wait cut short between two tries |
| ChunkedUpload.ChunkedUploadClient.UploadChunks | agent/src/chunked_upload.py:375-409 | only slices under their own numbers, in order, none after its acknowledgement, none tried too often; normal return iff all are acknowledged |
| ChunkedUpload.ServerHoldsContent | agent/src/chunked_upload.py:375-409 | after a normal return the server holds every slice and nothing else, whatever got lost or repeated; together the content iff the session fits it |
| ChunkedUpload.ChunkedUploadClient.UploadContent | agent/src/chunked_upload.py:258-310 | success iff the last answer finalizes, and then the exchanges are a full upload of this content; failures become a result; raises iff the chunk size is zero or the coroutine is cancelled, waiting for an answer or between tries |
| JobExecutors.JobExecutor.CheckNoChange | agent/src/job_executor.py:450-694 | completes only against an equal recorded hash, passes a hash on only if it was found changed, and swallows every exception but a cancelled coroutine |
| JobExecutors.JobExecutor.SubmitResults | agent/src/job_executor.py:262-318 | results and report travel once each, inline or by an upload of this job, never large results inline; succeeds iff every step does |
| JobExecutors.JobExecutor.Execute | agent/src/job_executor.py:201-355 | the calls of one job: all its own, nothing after an acknowledged one, truthful, completed iff the job goes through |
| JobExecutors.OneTerminalOutcome | agent/src/job_executor.py:235-355 | at most one acknowledged end; a normal return iff exactly one completion was acknowledged and closing was not cut short; a raise otherwise has none |
| JobCounterexamples.CompletedYetRaised | agent/src/job_executor.py:350-355 | a job whose completion is acknowledged and whose execution raises, because closing the progress reporter is cut short |
| JobExecutors.NoChangeMeansSameInputs | agent/src/job_executor.py:551-580 | NO_CHANGE is chosen iff tool, files and relevant configuration equal the recorded ones and the tool is not the connection test |
| Cancellation.ReportProgress | agent/src/job_executor.py:2522-2525 | a progress report in a run raises iff a command to cancel the job came in after it began and while it was current |
| PollingLoops.JobPollingLoop.PollAndExecute | agent/src/polling_loop.py:134-164 | a failed job counts as work done; only an interrupted one ends the loop; nothing of it is left behind, while a job without id or tool is a failure and stays current |
| PollingLoops.JobPollingLoop.FinishRound | agent/src/polling_loop.py:79-123 | the handlers of one round advance the failure count or give the exit code |
| PollingLoops.JobPollingLoop.Run | agent/src/polling_loop.py:70-132 | the exit code is that of the rounds, from any earlier failure count, and the API log is the jobs' sessions one after the other |
| PollingLoops.ExitsExactly | agent/src/polling_loop.py:70-132 | the loop ends with the first round that gives a reason: 4 or 5 exactly at the fifth failure in a row, earlier ones counted, by its kind; 2 at a revocation, 3 at an authentication error, 0 when stopped |
| PollingLoops.EndedOncePerClaim | agent/src/polling_loop.py:134-164 | over a whole run a job is ended at most once per claim |
| Cancellation.CancelTargetExactly | agent/src/main.py:381-385 | a command cancels a job iff it is the prefix followed by its id, colons included |
| Cancellation.ShutterSenseAgent.ProcessCommand | agent/src/main.py:369-385 | the state after a command is that of the protocol; other commands and other jobs change nothing |
| Cancellation.ShutterSenseAgent.HandleCancelJob | agent/src/main.py:387-410 | only the current job is cancelled, in loop and executor alike |
| Cancellation.FieldsTrackSteps | agent/src/polling_loop.py:145-164 | in every interleaving, also with jobs taken but never begun, the executor is on the last job begun and its flag is up iff a command for the then current job has come in since |
| Cancellation.CallbackRaisesExactly | agent/src/job_executor.py:2522-2525 | cancellation is raised for a job iff a command for it came in after it began and while it was current: none is stale, none is lost |
| Cancellation.CancelBetweenTakeAndBeginWouldBeLost | agent/src/job_executor.py:217-219 | why taking and beginning a job must not be separated: a command in between would be lost |

## Left out

- EnumerationIsOrdered: is about acyclic pipelines without repeated outputs or methods; otherwise a path can be listed several times, and the order is that of `PathList`.
- EnumerateAllPaths: requires that no cycle consists of Captures only, the exact condition for bounded depth; without it the original runs out of stack unless it raises first.
- EnumeratePathsWithPairing: requires, where it does not raise, that no cycle consists of Captures and Pairing nodes only, which lets all its searches halt; the original may still return on some pipelines that have one, when no search meets it.
- ValidateNodes: a Process node's method ids are a list by type, so the check for that is left out.
- ValidateSpecificImage: returns the verdict fields without copying the image's own data; the fallback for pipelines the enumeration cannot handle is left out, since it handles all of them.
- CalculateAnalytics: does not model method usage, camera metadata and the name lookup, which is a parameter.
- BuildImagegroups: models the legacy parser; the regular-expression parser and the reason texts of invalid files are left out.
- ConvertDbPipeline: node names and Pairing input lists are not modelled; missing, null and empty ids are one blank id.
- StateHashExactly: SHA-256 and JSON encoding are parameters, assumed free of collisions and faithful.
- CheckNoChange: how files are listed and hashed is one arbitrary outcome, the display mode without files included; the debugging text for inventories is left out.
- Execute: each awaited call is one arbitrary outcome, so retries inside the HTTP client, rate-limited progress reports and the tools themselves are not modelled; an acknowledgement is what the agent saw, not what the server stored.
- UploadContent: the checksum is a parameter, and of the waits between tries only whether they are cut short matters.
- UTF-8 encoding, Unicode case folding and Unicode digits: text operations are those on ASCII.
- Node ids are an abstract type that can only be compared, since nothing in the graph algorithms looks inside them; sorted id lists in error reports are sets.
- Guidance texts, messages and verbose printing: prose.
- Readiness counts, photo statistics, CLI commands, heartbeats, metrics, attestation, credentials and self-update: easy sums, or input and output.
- Backend services and storage adapters: they rest on databases and remote stores that are not part of this model.
