# iris-lakehouse: a verified model

A Dafny model of six parts of the iris data engine, with proofs of what each promises.
`dafny verify dfyconfig.toml` checks all of it; no file needs another project.

- **Pack apply order** (`PackTopo`, `PackOrder`, `PackApply`). A pack's pipelines and composer lanes are put
  into the order they are declared in: dependencies first, ties by lane, composer position and
  name, each composer right after its lane's first member.
- **Import graph** (`ImportGraph`, `CycleSearch`). The architecture gate: a coloured depth-first
  search for import cycles, and the layering and test-harness rules.
- **Read surface** (`ReadPlan`, `PlanRequest`, `ReadSql`, `DataStatement`, `DataRoute`,
  `EndpointPlan`, `EndpointDrain`, `DrainRuns`, `DrainTrace`, `DrainedTable`). A request becomes a plan, the plan is bound into a
  fixed statement whose every filter is optional, and an NDJSON stream drains the result batch by
  batch.
- **Load history** (`LoadSeries`, `LoadSeed`, `LoadHistory`, `LoadRestart`). Bounded rings of host
  load and captured rows over an unbounded ghost history, retirement of idle series, the seed that
  rebuilds the rings, and a whole run, its lost writes and the restart put together.
- **Archives** (`ArchiveCodec`, `ArchiveFile`, `ArchiveExport`, `ArchiveAttempts`). The
  length-prefixed file format, the publish, re-validate, drop, record protocol, and any number of
  attempts interleaved.
- **iris.toml** (`TomlSyntax`, `TomlFile`, `TomlGrammar`, `TomlUpsert`, `TomlLayout`). The scanner,
  the grammar it reads, the printer and the in-place writer.

`Ordering`, `Joining`, `GoText` and `Results` hold what the modules share: strict orders and
sorting, joined strings, and the library text functions the code calls.

The code's loops and objects are methods and classes; each is proved equal to a specification
function, or to satisfy a predicate, and the main results are lemmas about those for all inputs and
all runs. What a specification function computes is in turn stated apart from its definition, in
terms of the input itself: the declaration files, the import paths, the query's texts, the sample's
fields, the lines and bytes of a file, with the code's constants written out. A Go map is walked in an order the model leaves open (`Ordering.WalkKeys`), so a method
proved equal to a function is deterministic whatever that order. Some predicates keep their
details folded behind a trivial token predicate, which a proof mentions to look inside.

## What the proofs found

- **A column named `before` makes an accepted `/data` request fail.** The param is then a known
  filter, and also the descending cursor, for which no fixed statement has a slot. Every other
  accepted plan on a well-formed shape binds: `DataRoute.ServeData` states the condition both ways,
  and `DataRoute.BeforeColumnFails` is such a table and request.
- **A drain can end early without an error.** The stream continues from the last row's sort value,
  which is missing when the sort column is not among the endpoint's fields (nothing requires it
  to be) and NULL in a nullable unique column. `DrainedTable.UnchangingTable` says exactly when a
  stream is whole: the result fits one batch, or the sort column is projected and never NULL.
- **Two exports under one key with different rows can lose the second's rows.** Re-validation
  reads the bytes in memory, not the published object. `ArchiveExport.SharedKeyLosesRows` shows it
  of any two and `ArchiveExport.LostPartition` of one pair; with one header and one row list per key,
  `RunsAreSafe` and `ArchiveAttempts.InterleavedAttemptsAreSafe` exclude it.
- **A bucket exactly at the seed window's edge is shifted** by one slot when the daemon was down
  for a minute or more (`LoadSeed.SeededIsAxis`, `LoadSeed.EdgeBucketShifts`); inside it,
  with seals whole minutes apart, nothing shifts.
- **Seals a second off can swallow a lost bucket's slot.** The seed counts whole minutes between the
  buckets it reads: with seals at 0 and 119 seconds and the one between lost, it sees no gap, and
  every older bucket moves one slot. `LoadSeed.SeededIsTimelineExactly` gives the exact condition,
  that the minutes of each gap count its seals, and `LoadSeed.DriftSwallowsLostSeal` the example.
- **Repeating an upsert can change the bytes**, never the parse. `TomlUpsert.UpsertTwiceSameBytes`
  gives the exact condition on the file: no owned key is missing from it, and some blank line but
  the first has only dropped duplicates after it. `DroppedDuplicateExposesBlank` is a family of them.
- **A digest or signature of 2^16 bytes or more** is written without complaint and does not read back
  as built; every other file does (`ArchiveFile.BuildThenRead`).
- The import gate's comment speaks of each cycle; the search reports one per closing edge. What is
  proved is that every cycle holds a reported edge.

## Model

| member | source | states |
|---|---|---|
| PackTopo.EmissionIsTheGreedySequence | internal/catalog/order.go:161-189 | any sequence that takes the (lane, position, name)-least ready member at each step and stops when none is ready is the emitted one |
| PackTopo.SuccessIsATopologicalPermutation | internal/catalog/order.go:142-201 | a successful order holds every member once, in-pack dependencies before their dependents |
| PackTopo.OutOfComposerOrderMeansBlocked | internal/catalog/order.go:161-189 | lane mates come out against composer order only if the earlier-ordered one still waited for a dependency |
| PackTopo.RankedByLanePositionName | internal/catalog/order.go:161-189 | rank is by lane, then composer position, then name |
| PackTopo.OutOfRankMeansBlocked | internal/catalog/order.go:161-189 | a member comes out after one of higher rank only if it still waited for a dependency |
| Ordering.BeforeIsTextOrder | internal/catalog/order.go:161-189 | the order of names is by code point at the first difference |
| PackTopo.StuckExactlyWhenCycleReachable | internal/catalog/order.go:190-199 | a member is stuck exactly when a dependency cycle is reachable from it |
| PackTopo.RefusedExactlyWhenCyclic | internal/catalog/order.go:190-199 | refusal exactly when the in-pack dependencies have a cycle |
| PackTopo.CountDependencies | internal/catalog/order.go:149-160 | in-degrees count unmet dependencies, duplicates included, and downstream lists match them |
| PackTopo.ComposerPositions | internal/catalog/order.go:143-148 | a keyed position is the composer's, zero for names not ordered, for every key that no other lane's composer uses |
| PackTopo.TopoMembers | internal/catalog/order.go:142-201 | the worklist loop yields that order or the sorted stuck names, whatever order its maps are walked in |
| PackOrder.IndexHoldsTheDeclarations | internal/catalog/order.go:61-95 | an accepted index holds exactly the declared pipelines and composers under their own paths |
| PackOrder.IndexPack | internal/catalog/order.go:61-95 | the index, in file order, of every declaration; what it holds is told by PackApply.IndexRecords |
| PackOrder.PermutationBySize | internal/catalog/order.go:120-138 | an order as long as the members, without repeats and drawn from them, is a permutation of them |
| PackOrder.Validate | internal/catalog/order.go:108-139 | a lane passes exactly when lone and composer-less or ordered by a permutation of its members; a fault is the first thing amiss |
| PackOrder.BlamedOnce | internal/catalog/order.go:108-139 | a lane with a fault is not well shaped, and its fault is the only one |
| PackOrder.EveryPrefixInterlocked | internal/catalog/order.go:44-58 | after every step no composer stands without a member applied and no two members of a lane without its composer |
| PackOrder.ApplySequenceIsLawful | internal/catalog/order.go:31-58 | an accepted pack is applied completely: every declaration once, each prefix interlocked |
| PackOrder.DependenciesAppliedFirst | internal/catalog/order.go:31-58 | in the spliced sequence every pipeline of the index comes after its in-pack dependencies; PackApply.ApplyOrder says it of the files |
| PackOrder.SpliceComposers | internal/catalog/order.go:48-57 | the tallying loop puts each composer right after its lane's first member |
| PackApply.IndexRecords | internal/catalog/order.go:61-95 | the index of accepted files holds of each pipeline file its path, its lane (the folder's where it names none) and its dependencies, of each lane its composer's path and order, and nothing else |
| PackApply.IndexFaults | internal/catalog/order.go:61-95 | files are refused exactly at the first one that does not parse, composes a composed lane or repeats a pipeline's name |
| PackApply.ApplicableIsLawful | internal/catalog/order.go:31-58 | a pack applies exactly if its files parse, none is declared twice, there is a pipeline, each lane is lone or ordered by a permutation of its pipelines, and no pipelines depend on each other in a circle |
| PackApply.FilesInOrder | internal/catalog/order.go:31-58 | the applied files are the declaring ones, each once: dependencies before dependents, each composer right after its lane's first pipeline, and no ready pipeline of lower lane, position and name passed over |
| PackApply.ApplyOrder | internal/catalog/order.go:31-58 | over the files: accepts exactly the lawful packs and returns the paths of such a sequence; a refusal is the first failing check's: a bad file, no pipelines, some bad lane's own fault, the names that lead into a dependency circle |
| PackOrder.SlashFreeKeysUnshared | internal/catalog/order.go:143-148 | lanes named without a slash never share a position key |
| ImportGraph.TargetsAreImports | internal/arch/graph.go:119-127 | a package's internal imports are the v with `module/internal/v` among its import paths, and the `cmd/r` with `module/cmd/r` among them |
| ImportGraph.Roster | internal/arch/graph.go:59-79 | each layer's packages by name, everything under `cmd/` on top, all else test harness |
| ImportGraph.InternalImports | internal/arch/graph.go:225-236 | a package's internal imports, once each and sorted |
| ImportGraph.CheckDirection | internal/arch/graph.go:314-338 | reports exactly the imports between shipped packages that do not go to a lower layer, ordered by subject and target, once each |
| ImportGraph.CheckHarnessIsolation | internal/arch/graph.go:344-361 | reports exactly the shipped packages' imports of test harness code, in the same order |
| ImportGraph.CheckLayering | internal/arch/graph.go:314-361 | both checks are clean exactly on layered graphs: shipped code imports shipped code of a strictly lower rank and no harness |
| ImportGraph.ShippedPathsDescend | internal/arch/graph.go:105-115 | both checks clean, every package on a path from shipped code is shipped at a strictly lower rank |
| ImportGraph.NoCycleTouchesShippedCode | internal/arch/graph.go:314-361 | both checks clean, no import cycle touches shipped code |
| ImportGraph.ShippedPathsAreShort | internal/arch/graph.go:59-79 | both checks clean, a path from shipped code has at most one package per rank left below it |
| CycleSearch.Search.Visit | internal/arch/graph.go:262-289 | one visit finishes a node, keeps the stack, and answers every edge of what it finished |
| CycleSearch.CycleFrom | internal/arch/graph.go:300-307 | the stack from the node's position on |
| CycleSearch.BuildAdjacency | internal/arch/graph.go:241-254 | the adjacency is the internal import relation and its nodes hold every edge's ends |
| CycleSearch.CheckAcyclic | internal/arch/graph.go:240-296 | terminates; silent exactly if no chain of import paths leads back to its start; every report a simple import cycle, once per closing edge; every cycle holds a reported edge when names hold no `>` |
| ReadPlan.CheckKnownSingle | internal/api/params.go:494-509 | refuses exactly when some param is unknown or repeated, naming the least in order |
| ReadPlan.PlanDataQuery | internal/api/params.go:336-401 | the plan is a function of the request, whatever order its maps are walked in; PlanFilters, PlanPages and PlanAccepts say which |
| ReadPlan.PlanIsTheRequest | internal/api/params.go:341-390 | an accepted plan answers exactly the present params, equalities by column, then ranges by param |
| ReadPlan.PredicateOrigin | internal/api/params.go:341-390 | a bound comes from a range param no declared column takes, an equality from its column's own |
| ReadPlan.NoTwoPredicatesAlike | internal/api/params.go:358-390 | no two predicates share a column and an operator |
| ReadPlan.RefusalNamesTheLeast | internal/api/params.go:494-509 | the refusal of a bad param names the least offender |
| ReadPlan.ResolveLimit | internal/api/params.go:537-553 | an accepted limit lies between one and the cap; LimitReads says which it is |
| PlanRequest.LimitReads | internal/api/params.go:537-553 | the limit is 100 if none is given, and otherwise the given decimal integer from 1 to 1000 |
| PlanRequest.PlanFilters | internal/api/params.go:341-390 | an accepted plan's predicates are exactly the given params': a column's name asks for equality, its name with `_from` or `_to`, unless a column has that name, for a bound, each with the given text parsed by the column's type |
| PlanRequest.PlanPages | internal/api/params.go:449-489 | an accepted plan has a cursor bound exactly if `after` or `before` is given: above the one's or below the other's parsed text |
| PlanRequest.PlanAccepts | internal/api/params.go:336-401 | a request is planned exactly if every param is known and single, every given text parses, the limit reads, and `after` and `before` are not both given |
| PlanRequest.RefusalBecause | internal/api/params.go:336-401 | a refusal names what is wrong first: a param unknown or repeated, a column's text, a range param's, the limit, the cursor; within one part the first in text order |
| GoText.ParseIntReads | internal/api/params.go:537-553 | an integer parses exactly if it is a decimal numeral, perhaps signed, and fits 64 bits |
| GoText.TrimSpaceCuts | internal/api/params.go:537-553 | trimming takes off exactly the space at both ends |
| GoText.SpacesAre | internal/config/toml.go:55 | the characters trimming takes for space, one by one |
| ReadSql.BindingMeansPlan | internal/api/readsql.go:194-249 | a bound statement accepts exactly the rows all plan predicates and the cursor hold of, for arbitrary slots |
| ReadSql.BindSlot | internal/api/readsql.go:215-238 | one slot's argument and the predicate it uses up, or exactly what is wrong with it |
| ReadSql.BindArgs | internal/api/readsql.go:200-249 | binds exactly when slots are aligned, known and enough for every predicate and the cursor fits; a refusal names the descending cursor, the first unfit slot, a filter asked for beyond its slots, or the slotless cursor |
| DataStatement.BuildDataStatement | internal/api/readsql.go:76-176 | builds exactly on well-formed shapes; a clause per non-limit slot, ordered by the key; a refusal names the first thing wrong |
| DataStatement.BareIdentsAre | internal/api/readsql.go:31 | the bare identifiers, character by character |
| DataStatement.DataSlotsAligned | internal/api/readsql.go:111-169 | slots numbered in order, the cursor on the sole key column, every comparison on a given column |
| DataStatement.DataSlotsOffer | internal/api/readsql.go:124-139 | each filter column has its equality slot, and each bound's slot unless a filter column takes its name |
| DataStatement.DataSlotsSay | internal/api/readsql.go:111-169 | slot by slot: which param it binds, what it compares and how, in order |
| DataStatement.ClausesAreSlots | internal/api/readsql.go:116-152 | the optional clauses say of a row what the numbered slots do |
| DataRoute.ProjectionAccepts | internal/api/dataroute.go:149-194 | `columns=` is accepted exactly as a repeat-free list of declared columns with the whole key, kept in caller order |
| DataRoute.PartsAreTrimmed | internal/api/dataroute.go:155-165 | the parts of `columns=` are what lies between its commas, trimmed |
| DataRoute.ProjectionWhole | internal/api/dataroute.go:149-154 | without `columns=` all declared columns are served in order |
| DataRoute.ProjectionRefuses | internal/api/dataroute.go:155-194 | a refused list is repeated, or its first bad part or the first key column left out is named |
| DataRoute.DataProjection | internal/api/dataroute.go:155-194 | the first bad part, or the first key column left out, is the fault named |
| DataRoute.PredicateHasSlot | internal/api/dataroute.go:98-108 | every planned predicate has a slot in the statement over the touched columns, whatever names collide |
| DataRoute.AcceptedPlanBinds | internal/api/dataroute.go:92-117 | an accepted plan binds exactly when the request has no `before`, which only a column of that name lets through |
| DataRoute.ServeData | internal/api/dataroute.go:80-117 | projection and planning faults pass through; on a well-formed shape everything else executes unless `before` is given |
| DataRoute.BeforeColumnFails | internal/api/dataroute.go:92-117 | a table with a column named `before`, and a request for it, that fails to bind although planned |
| DataRoute.ServedMeansRequest | internal/api/dataroute.go:98-117 | the executed text selects exactly the rows whose columns compare as the query's own texts ask, and whose key lies above the parsed `after` if one is given |
| DataRoute.ServedLimit | internal/api/dataroute.go:98-117 | the executed statement is bound the limit the request asks for |
| DataRoute.ServedTouchesOnlyWhatIsAsked | internal/api/dataroute.go:98-107 | the text compares only filtered columns and the key |
| EndpointPlan.PlanEndpointQuery | internal/api/params.go:246-311 | the slot walk yields the given filters' predicates in slot order, or the first fault |
| EndpointPlan.EndpointAccepts | internal/api/params.go:246-311 | a request is planned exactly if its params are the slots' and single, every given text parses by its slot's type, and the limit reads |
| EndpointPlan.EndpointRefuses | internal/api/params.go:246-311 | a refusal names what is wrong first: a param unknown or repeated, a slot's text, the limit, `after` |
| EndpointPlan.PlanBindsItself | internal/api/params.go:236-311 | every plan over an endpoint's slots binds into them, shared columns, operators and params included |
| EndpointPlan.EndpointMeansRequest | internal/api/params.go:236-311 | the bound endpoint statement accepts exactly the rows that compare with each given filter's text as its slot's kind asks, beyond the parsed `after` |
| EndpointDrain.Drain | internal/api/endpoint.go:127-177 | the batch loop, a thousand rows a read, streams what the drain specification does, whatever each read returns |
| DrainTrace.DrainTraces | internal/api/endpoint.go:127-177 | a stream is a run of pages, each the first rows in key order beyond the page before; all go out whole but one holding a row that does not marshal; and why it ends |
| DrainRuns.DrainCovers | internal/api/endpoint.go:150-175 | over any table states: keys ascend, nothing is sent that was not read, no row that stayed put is skipped up to the last key, nor at all after a short batch |
| EndpointDrain.KeyedOnce | internal/api/endpoint.go:154-175 | a keyed row is streamed at most once |
| DrainRuns.ResumedDrain | internal/api/endpoint.go:155-159 | a stream resumed at its last key joins the first into one covering stream |
| DrainRuns.NeverUnkeyed | internal/api/params.go:202-222 | sort column projected and never NULL, a stream ends only on a short batch or a failed read |
| DrainedTable.DrainsKeyedTable | internal/api/endpoint.go:127-177 | an unchanging keyed table is streamed whole and in key order, in a read per full batch and one more |
| DrainedTable.UnchangingTable | internal/api/endpoint.go:150-177 | an unchanging table is streamed whole exactly when it fits one batch or is projected by a never-NULL key |
| LoadSeries.Series.Push | internal/daemon/loadhistory.go:121-156 | fields after a push are the longer history's last 300 slots and its bucket's peaks and sums |
| LoadSeries.Series.Seal | internal/daemon/loadhistory.go:158-177 | fields after a seal are the longer history's last 1440 buckets, the bucket empty |
| LoadSeries.Series.Dead | internal/daemon/loadhistory.go:179-210 | dead exactly when no retained slot is positive |
| LoadSeries.MaxCpuIsPeak | internal/daemon/loadhistory.go:142-149 | a bucket's CPU slot is absent exactly without samples, else the greatest |
| LoadSeries.MaxRssIsPeak | internal/daemon/loadhistory.go:142-149 | a bucket's RSS slot is the greatest sample, zero without one |
| LoadSeries.BucketSumsUp | internal/daemon/loadhistory.go:142-170 | a bucket's slot sums up its ticks' slots: greatest CPU and RSS, rows added, each absent if no tick has it |
| LoadSeries.PositiveTickShows | internal/daemon/loadhistory.go:142-170 | a positive sample makes its bucket's slot positive |
| LoadHistory.Loads.Record | internal/daemon/loadhistory.go:426-493 | one tick is one step of the collector's state machine; every thirtieth seals and returns one row per series, every sixtieth seal prunes |
| LoadHistory.Loads.SealAll | internal/daemon/loadhistory.go:469-488 | every series sealed, the idle ones but the engine's dropped, each bucket's row kept |
| LoadHistory.Loads.Snapshot | internal/daemon/loadhistory.go:508-548 | nothing before the first tick, then every series once, the running bucket as newest coarse slot |
| LoadHistory.Loads.Seed | internal/daemon/loadhistory.go:290-343 | each read series is replaced by one holding its seeded ring |
| LoadHistory.TickReads | internal/daemon/loadhistory.go:444-467 | a tick's slot says what the sample's own fields do: the engine's load, a named entity's, zero for one not named when the host answered, absent if nobody did; rows likewise |
| LoadHistory.ClockKeepsTime | internal/daemon/loadhistory.go:436-490 | over any run tick = 30 seals + bucket ticks |
| LoadHistory.RunIsFaithful | internal/daemon/loadhistory.go:426-493 | over any run each live series holds exactly its samples since birth, cut at the collector's seals |
| LoadHistory.RingsShowTheRun | internal/daemon/loadhistory.go:123-177 | series of all ages align from their ends: each of the last 300 slots says what its sample's fields do, each of the last 1440 coarse slots sums up its bucket's samples |
| LoadHistory.NamedAreLive | internal/daemon/loadhistory.go:436-448 | a series is there from the first sample that names it, until a seal can retire it, and no other |
| LoadHistory.RunningBucketShows | internal/daemon/loadhistory.go:508-548 | the running bucket's slot sums up the samples since the last seal |
| LoadHistory.ReadoutIs | internal/daemon/loadhistory.go:508-548 | a readout is the series' rings, slot for slot, then the running bucket |
| LoadHistory.PositiveKeepsSeries | internal/daemon/loadhistory.go:473-488 | a series whose sample had a positive CPU, RSS or row count in any of the last 1440 sealed buckets is there |
| LoadHistory.SealRetires | internal/daemon/loadhistory.go:473-488 | after a seal only the engine's series and those with something positive in their rings are left |
| LoadHistory.EngineIsKept | internal/daemon/loadhistory.go:444-487 | the engine's series is never retired: after any run it holds every sample since the first tick |
| LoadSeed.SeedRing | internal/daemon/loadhistory.go:306-340 | the gap-filling loops build the specified ring |
| LoadSeed.SeededIsTimelineExactly | internal/daemon/loadhistory.go:306-340 | with every row sampled, the ring has one slot per seal and minute of downtime, lost ones absent, exactly when each gap's minutes count its seals |
| LoadSeed.RestartKeepsSeals | internal/daemon/loadhistory.go:306-340 | where they do, a seal's slot is as far from the end as seals follow it and minutes after those, absent if not read |
| LoadSeed.DriftSwallowsLostSeal | internal/daemon/loadhistory.go:314-332 | seals 119 seconds apart with a lost one between them leave no slot for it |
| LoadSeed.SeededIsAxis | internal/daemon/loadhistory.go:306-340 | seals whole minutes apart, the ring is the time axis from the first bucket read to now; at the window's edge, which slot goes |
| LoadSeed.RestartKeepsTruth | internal/daemon/loadhistory.go:283-343 | seals whole minutes apart, a bucket sealed at t sits floor((now - t) / 60) slots from the end, true if read, else absent |
| LoadSeed.RestartFillsDowntime | internal/daemon/loadhistory.go:333-335 | the ring spans exactly first survivor to now, all absent after the last survivor |
| LoadSeed.EdgeBucketShifts | internal/daemon/loadhistory.go:309-340 | at the window's edge with a minute of downtime the first bucket sits one slot too near |
| LoadRestart.Collect | internal/daemon/loadhistory.go:268-424 | a seeded run hands the table one batch per seal, a row per series live then, and ends in the state machine's state |
| LoadRestart.RowsRead | internal/daemon/loadhistory.go:302-305 | grouped by series, the table holds exactly the rows of the seals kept that found the series live |
| LoadRestart.RowReadsBack | internal/daemon/loadhistory.go:320-330 | a persisted bucket reads back as the slot its seal pushed |
| LoadRestart.RowSays | internal/daemon/loadhistory.go:475-483 | the columns of a persisted row, from the bucket's samples |
| LoadRestart.SealFindsTicks | internal/daemon/loadhistory.go:426-488 | a seal persists exactly the ticks of its bucket that the series lived through |
| LoadRestart.RestartShowsRun | internal/daemon/loadhistory.go:283-343 | run, lose any batches, restart: each seal's slot shows what its bucket's samples say, in its place, or is absent |
| LoadRestart.RestartShowsHistory | internal/daemon/loadhistory.go:283-343 | at a steady clock, within the window, that place is the bucket's age in minutes |
| ArchiveCodec.EncodeRows | internal/archive/archive.go:31-41 | the buffer is each row behind its 8-byte length |
| ArchiveCodec.WordBytes | internal/archive/archive.go:31-110 | a 64-bit number's eight bytes, most significant first |
| ArchiveCodec.HalfWordBytes | internal/archive/archive.go:96-104 | a length's two bytes, most significant first |
| ArchiveCodec.RowStandsAt | internal/archive/archive.go:31-41 | each row stands behind its own length word and the rows before it |
| ArchiveCodec.DecodeRows | internal/archive/archive.go:44-61 | decodes exactly the encodings, to rows that encode back to the bytes; an error says whether a length word or its row breaks off |
| ArchiveCodec.EncodedRowsInjective | internal/archive/archive.go:31-61 | different rows have different encodings |
| ArchiveFile.BuildFile | internal/archive/archive.go:77-110 | the bytes appended piece by piece are the file's layout |
| ArchiveFile.WrittenIsLaidOut | internal/archive/archive.go:77-110 | the file byte by byte: `IRISAR01` at 0, first id at 8, last at 16, digest length at 24, and so on |
| ArchiveFile.ParseFile | internal/archive/archive.go:113-149 | accepted content rebuilds the same bytes; refused bytes are the file of nothing, and the error says where they end too early or go on |
| ArchiveFile.FilesArePrefixFree | internal/archive/archive.go:77-149 | no file is a proper prefix of another, and bytes determine content |
| ArchiveFile.HoldsUniquely | internal/archive/archive.go:77-149 | bytes that hold a header and rows hold no others |
| ArchiveFile.Read | internal/archive/archive.go:198-212 | reads back header and rows, or refuses bytes that hold none |
| ArchiveFile.BuildThenRead | internal/archive/archive.go:77-149 | reading back what was built returns the same header and rows exactly when digest and signature are under 2^16 bytes |
| ArchiveExport.StepIsSafe | internal/archive/archive.go:267-335 | every step keeps each partition resident or stored under its digest, and archived implies stored and dropped |
| ArchiveExport.RunsAreSafe | internal/archive/archive.go:267-335 | over any sequence of guarded steps, failures and retries no partition is lost |
| ArchiveExport.Export | internal/archive/archive.go:267-335 | a lawful attempt passes through such a run however its seams fail; and, attempt by attempt, exactly what is published, dropped and recorded and which error is returned: nothing is dropped unless what was built reads back with its digest, nothing recorded unless dropped |
| ArchiveExport.SharedKeyLosesRows | internal/archive/archive.go:296-318 | whenever a first attempt's object stands under the key, a second attempt with other rows succeeds and leaves its resident range neither resident nor stored |
| ArchiveExport.LostPartition | internal/archive/archive.go:296-318 | such a pair, from resident rows with their digest to an archived digest without them |
| ArchiveAttempts.ActionIsGuarded | internal/archive/archive.go:267-335 | whatever other attempts do in between, each call of an attempt meets the guard of its step |
| ArchiveAttempts.InterleavedAttemptsAreSafe | internal/archive/archive.go:267-335 | over any interleaving of any number of attempts, each failing or crashing anywhere, no partition is lost |
| TomlSyntax.TwoReplacementsEscape | internal/config/tomlwrite.go:110-114 | two replacements in turn are one per-character escape |
| TomlSyntax.QuotedRoundTrip | internal/config/toml.go:220-244 | scanning a printed string returns it and stops at its closing quote |
| TomlSyntax.ListRoundTrip | internal/config/toml.go:250-292 | parsing a printed list returns it, empty included |
| TomlSyntax.ScanQuoted | internal/config/toml.go:220-244 | the index loop is the scanner |
| TomlSyntax.ParseStringArray | internal/config/toml.go:250-292 | the array loop is the element grammar, trailing commas and stray text refused |
| TomlFile.ParseTOMLValue | internal/config/toml.go:174-202 | a value's kind and content, or its fault; ValueReads and ValueFaults say which |
| TomlFile.ParseTOML | internal/config/toml.go:51-78 | a function of the text; FileReads says which |
| TomlGrammar.ScanReads | internal/config/toml.go:220-244 | a string is scanned exactly from its escaped text between quotes |
| TomlGrammar.ItemsRead | internal/config/toml.go:250-292 | a list is scanned exactly from bracketed strings with single commas between and blanks around them |
| TomlGrammar.ValueReads | internal/config/toml.go:174-202 | a right-hand side is a value exactly if it is a string's, list's or 64-bit integer's text amid space, with nothing or a comment behind it |
| TomlGrammar.ValueFaults | internal/config/toml.go:174-202 | a refused right-hand side is empty, no value, breaks off, escapes wrongly or has text behind it, as the fault says |
| TomlGrammar.LineSets | internal/config/toml.go:54-77 | a line sets a key to a value exactly if it is a bare name, `=` and that value's text, space apart |
| TomlGrammar.CommentEndsLine | internal/config/toml.go:174-202 | a setting followed by a comment is the same setting |
| TomlGrammar.RemarksAreSkipped | internal/config/toml.go:54-58 | a blank or comment line put in anywhere leaves the layer, the ignored keys and the verdict as they are, only moving the line number of a fault behind it |
| TomlGrammar.FileReads | internal/config/toml.go:51-136 | a file is accepted exactly if each line is blank, a comment or a setting of the kind its key takes; the layer holds each setting's last line, the ignored keys are the others in order; else the first bad line and what is wrong with it |
| TomlUpsert.RenderedLineReadsBack | internal/config/tomlwrite.go:31-106 | a printed setting line parses to that setting |
| TomlUpsert.KeySeen | internal/config/tomlwrite.go:66-78 | the rewriter sees a key exactly where a line that is no comment names one before its first `=` |
| TomlUpsert.UpsertPuts | internal/config/tomlwrite.go:31-106 | a file that parses is rewritten to one parsing to the old layer overridden by exactly the settings |
| TomlUpsert.UpsertTwiceParsesTheSame | internal/config/tomlwrite.go:31-106 | repeating the upsert parses the same |
| TomlUpsert.UpsertKeepsUnownedLines | internal/config/tomlwrite.go:65-92 | lines not owned survive verbatim in order, only the trailing newline run may differ |
| TomlUpsert.UpsertTwiceSameBytes | internal/config/tomlwrite.go:31-106 | the bytes repeat unless the file already sets every owned key and a blank line, not its first, has only dropped duplicates after it |
| TomlUpsert.DroppedDuplicateExposesBlank | internal/config/tomlwrite.go:65-92 | a trailing duplicate behind a blank line makes a repeated upsert change the bytes |
| TomlUpsert.UpsertTOML | internal/config/tomlwrite.go:31-106 | writes exactly when keys are bare and set one way, and then that text; a refusal names such a key |
| TomlLayout.UpsertLaysOut | internal/config/tomlwrite.go:64-92 | line by line: each key to be set is written over the first line naming it and dropped from later ones, all else stays in place, and the keys no line named follow, sorted |
| TomlLayout.OldLinesAre | internal/config/tomlwrite.go:64-68 | the lines rewritten are the file's without its trailing empty ones |

## Left out

- PackTopo.TopoMembers: no member's `lane/name` position key is also one of another lane's composer; where two are, the code keeps the position it stores last. Lane names without a slash never share one (PackOrder.SlashFreeKeysUnshared).
- PackApply.ApplyOrder: the parsed declarations are its input, a composer's path is not empty, and no position key is shared between lanes; of several bad lanes it names some one, as the code's map walk does.
- CycleSearch.CheckAcyclic: that every cycle holds a reported edge is stated for package names without `>`, the separator of the code's report keys; the rest holds for all names.
- ReadPlan.PlanDataQuery: parsing a typed value is an arbitrary partial function; a parsed value is never NULL.
- ReadSql.BindingMeansPlan: what an operator says of two values is an arbitrary relation, a comparison with NULL not holding; casts and types are not modelled.
- DataStatement.BuildDataStatement: SQL text and the statement's hashed name are not rendered; the type pattern is an arbitrary predicate; of several faulty filtered columns it names some one, as the code's map walk does.
- DataRoute.ServeData: every present param has a value, as parsed URL queries do; executing the statement and rendering the page are not part of it.
- EndpointDrain.Drain: the statement's filters are applied before: a table is the rows they match, its non-NULL sort values distinct; a run is given the outcome of each of its reads, and flushing and the HTTP envelope of a failed first read are not modelled.
- LoadHistory.Loads.Record: the host probe, run attribution, journal and clock are inputs; CPU is a real number and counters are unbounded, so 64-bit overflow and floating-point rounding are not modelled; the lock is not modelled.
- LoadRestart.RestartShowsRun: readings are not negative; the clock goes forward from seal to seal; a batch is kept or lost as a whole, as one transaction writes it; the table is read as holding this run's batches alone, and the seals held reach back no further than one ring.
- LoadRestart.Collect: the loop takes its samples and the clock's reading at each seal as inputs; ticker, cancellation and logging are not modelled.
- LoadHistory.PositiveKeepsSeries: readings are not negative, which keeps the absent marker of -1 apart from samples.
- LoadSeries.Series.Push: it takes the tick's slot as one value where the code takes the load and the row count separately; the three parallel rings stay separate fields.
- LoadSeed.SeedRing: builds one ring of slots where the code appends to three parallel ones; writing, reading and pruning the persisted table are inputs.
- LoadSeed.SeededIsAxis: buckets arrive in order, whole minutes apart, in the window and not after now, as seals at a steady clock leave them; SeededIsTimelineExactly and RestartKeepsSeals are about any other spacing.
- ArchiveFile.ParseFile: lengths are natural numbers, so lengths of 2^63 and above do not wrap; where the code reads the two signature-length bytes without testing that they are there, the model refuses the file.
- ArchiveExport.RunsAreSafe: every attempt under one key carries the same header and rows, and different keys have different ranges and digests; the hash is an arbitrary function.
- ArchiveExport.Export: publishing is one atomic write-once step on a map; `Write`'s temporary file, sync and rename are not modelled.
- TomlGrammar.ValueFaults: of a list that does not parse it says only that the value opens with `[`; which list fault it is, TomlSyntax.ParseStringArray's element grammar tells.
- TomlUpsert.UpsertTOML: works from text to text; reading and atomically replacing the file, its mode and its directory are not modelled.
- TomlUpsert.UpsertPuts: values hold no newline and match their keys' kinds; a layer is a map of the keys set, and text is a sequence of code points, so invalid UTF-8 is not modelled.
- Composite-key continuation, the id-keyed log pages and the engine-state collections' plans: the same grammar with fewer filters.
- The data-client and driver import checks: one membership test per import.
- HTTP routing, authentication, envelopes, the command line, catalog fetching, signatures, logging and process handling.
- The order in which a library sort leaves equal elements: none arise where the order matters.
