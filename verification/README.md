# Verified model of the gigagraph core

gigagraph indexes a source tree into a call graph and answers questions over it. This project models the
algorithms that carry its promises and proves what they guarantee for all inputs, all runs and all orders
of their inputs. `dafny verify dfyconfig.toml` checks everything.

Where the source works by updating variables, the model is a method with the same loop, proved equal to a
recursive function; the theorems are lemmas about that function. Objects that are changed in place
(`EndpointIndex`, `GigaGraph`, `Index`, the mount tables) are classes.

| area | modules |
|---|---|
| change impact | `ImpactGraph` (edges), `ImpactSearch` (loop, termination), `ImpactWalks` (witnesses), `ImpactClosure` (exact closure), `ImpactCap` (node cap, refusals, how often a function is queued), `ImpactLevels` (where upgrades do no harm), `ImpactLimit` (the depth limit), `ImpactReport` (report, tests to run again) |
| edit memory | `Touches` (ring), `TouchProtocol` (lock and rename, as steps of any number of writers) |
| routes | `Slashes` (segments), `Paths` (joining, canonical form), `PathMeaning` (joining and normalising, in characters), `NormalForm` (normalising twice), `GoPrefix` (rounds over mount edges), `Mounts` (walkers over mounts), `Correlate` (endpoints and clients) |
| call edges | `CallGraph`, `ReverseIndex`, `Enrichment` (build loop, rewriting, statistics), `Utf8`, `Framing` and `Uris` (wire formats) |
| fast forms | `Innermost`, `TopK`, `CallPath`, `SplitWords`, `ConstSubstitution` |
| shared | `Common`, `Sorting` |

## What turned out differently from what one would expect

- **Depth limit.** The search is described as the closure up to `max_depth` edges with the best achievable
  confidence, ordered by distance (src/impact.rs:8-11, 54-57). An upgrade overwrites a smaller depth, so a
  function within the limit can go missing. `ImpactLimit.DepthPromise` gives the exact condition on graph,
  seeds and limit: the report is that closure with true distances if and only if no function within the
  limit is reached with High confidence by detours only (`NoHighDetour`), and all functions within the
  limit fit under the node cap (`Fits`). `UpgradeHidesFunction` is a family of call graphs, one for every
  limit from 2 to 5000, in which a function is missed.
- **Edits of several files.** The ring is not always the trim of the whole history.
  `Touches.RunIsHistoryExactly` says for which runs it is all along, `TwoFileEntriesRevive` gives a run at
  whose end it is not, and `RingIsWholeHistory` shows that one file an entry suffices.
- **Query stripping.** `normalize_path` says that the query is stripped (src/endpoints.rs:6792-6794), but it
  only looks at the first mark. `NormalForm.MarksKept` says exactly when a mark survives, and
  `NormalizeTwiceExactly`, for every input, when a second pass changes the result.
- **Addresses in a query.** The scheme is looked for in the whole input, query included. `PathMeaning.QueryExactly`
  says that a query is dropped if it has no "://" in it, and decides the result alone if it has:
  "/a?u=http://h/b" is normalised to "/b".
- **Partial mount prefixes.** `file_mount_prefix` says that a partial prefix is worse than none and that any
  ambiguous link kills the join (src/endpoints.rs:348-351), but it looks at four links only.
  `Mounts.FileMountWhole` and `Mounts.AmbiguousMountMeaning` say for which chains the description holds,
  `FifthLinkIsLost` and `FarDisagreementIsMissed` are maps on which it does not, and `FourLinksDecide`
  covers what never ends: cycles of two or more files are composed as far as four links go.
- **camelCase.** Splitting gives the words back exactly when no two single-letter words follow each other
  behind the first word (`SplitWords.CamelRoundTrip`).

## Model

| member | source | states |
|---|---|---|
| `ImpactGraph.AdjacentMeaning` | src/impact.rs:59-108 | the adjacency holds exactly the edges of the graph: calls, other candidates of ambiguous calls, endpoint clients, bridge calls, each High only if all it rests on is, with kind and site |
| `ImpactGraph.ReverseAdjacency` | src/impact.rs:59-108 | the three loops fill in that adjacency, in the order of the graph's lists |
| `ImpactSearch.Scan` | src/impact.rs:126-152 | the inner loop is `RelaxAll`: seeds skipped, refusals flagged, new functions and upgrades recorded and queued |
| `ImpactSearch.SearchFrom` | src/impact.rs:110-155 | the loop computes `Result`, the search run to its end, and ends |
| `ImpactSearch.PopSpends` | src/impact.rs:120-152 | every turn keeps the loop invariant and lowers the measure: two entries to the queue for an unseen function, one for a Heuristic one, none for a High one |
| `ImpactSearch.SearchTerminates` | src/impact.rs:120-152 | at most 10000 turns beyond the seeds, for distinct seeds, whatever the graph |
| `ImpactCap.QueuedAtMostTwice` | src/impact.rs:130-149 | every function that is no seed is queued at most twice, a seed at most as often as it is listed |
| `ImpactWalks.RunGrounded` | src/impact.rs:120-152 | at every step every mark belongs to a real walk with that many edges and that worst confidence, without repetition |
| `ImpactClosure.DepthWitness` | src/impact.rs:54-57 | a reported depth, confidence, kind and site are those of one real non-repeating walk from a seed; depth is at least 1, at most the limit and at most the number of reports |
| `ImpactClosure.ExactClosure` | src/impact.rs:1-11 | nothing refused and fewer reports than the limit: reported if and only if reachable and no seed; High if and only if some walk has only High edges |
| `ImpactCap.NodeCap` | src/impact.rs:130-138 | at most 5000 reports for distinct seeds (one more per repeated seed); truncated if and only if at some turn of the run an expanded function leads to one that the result leaves out, and then the cap is used up |
| `ImpactCap.RefusedIsWithin` | src/impact.rs:135-138 | behind the flag there is a function within the limit that is not reported |
| `ImpactLevels.NoDetourSuffices` | src/impact.rs:54-57 | without High detours and refusals, upgrades change no depth: exactly the functions within the limit, best confidence, true distances |
| `ImpactLevels.UniformDistances` | src/impact.rs:54-57 | edges of one confidence, nothing refused: reported if and only if at distance 1 to the limit, with the true shortest distance as depth |
| `ImpactReport.BlastRadius` | src/impact.rs:58-155 | for a graph: honest walks over its edges, closure within the limit if and only if the graph has no High detour and fits, full closure when it is smaller than the cap and the limit |
| `ImpactReport.AffectedTests` | src/impact.rs:157-179 | exactly the tests among seeds and reports: a row at depth 0 for each listing of a seed, one for each report; lower depth first, then lower id |
| `ImpactReport.TestOrderDoesNotMatter` | src/impact.rs:171-178 | the order in which the hash map yields the reports does not show |
| `ImpactLimit.DepthPromise` | src/impact.rs:54-57 | for every graph, seeds and limit: the report is the closure within the limit, with best confidence and true distances, if and only if within the limit High is never a detour and all those functions fit under the cap |
| `ImpactLimit.UpgradeHidesFunction` | src/impact.rs:131-149 | for every limit from 2 to 5000 a call graph whose search misses a function within the limit, and records a depth that is no distance |
| `ImpactLimit.PromiseByLimit` | src/impact.rs:120-125 | without a condition on the graph the closure is sure only for limits of at most 1, or above the cap |
| `Touches.TrimRing` | src/touches.rs:246-266 | the counting loop is `Trim` |
| `Touches.TrimIdempotent` | src/touches.rs:243-245 | trimming a trimmed ring changes nothing |
| `Touches.TrimCaps` | src/touches.rs:21-24 | whatever was there: at most 250 entries, each file named by at most 10 |
| `Touches.TrimIsSubsequence` | src/touches.rs:243-266 | entries are kept in order, the newest always |
| `Touches.DroppedForCause` | src/touches.rs:248-258 | an entry is dropped if and only if 250 newer ones are kept or one of its files has its quota among newer kept ones |
| `Touches.IncrementalExactly` | src/touches.rs:219-223 | trimming in between gives the trim of it all if and only if no entry left out comes back |
| `Touches.RunIsHistoryExactly` | src/touches.rs:219-223 | over a run of records the ring is all along the trim of what was recorded if and only if no record ever revives an entry |
| `Touches.RingIsWholeHistory` | src/touches.rs:219-223 | if every entry names one file, the ring is the trim of everything ever recorded |
| `Touches.TwoFileEntriesRevive` | src/touches.rs:251-257 | a run, with an entry of two files, at whose end the ring is not the trim of the history |
| `Touches.RingInvariant` | src/touches.rs:3-9 | over every run: caps, order, newest entry last, idempotence |
| `Touches.NormalizeFiles` | src/touches.rs:192-198 | each non-empty normalised path once, in the order in which they turn up first |
| `Touches.NamingMeaning` | src/touches.rs:225-235 | the count of a file is the number of entries that name it |
| `Touches.RecordTouch` | src/touches.rs:182-239 | rejected exactly for want of a reason or a file; else the new ring, the entry as its newest, with its files in order, and for each file its count, from 1 to 10 |
| `TouchProtocol.RunsKeepInv` | src/touches.rs:102-145 | every step of every run keeps lock ownership, what each writer carries, and the ring file |
| `TouchProtocol.MutualExclusion` | src/touches.rs:102-145 | two writers that took the lock, and neither gave it back nor crashed since, are one |
| `TouchProtocol.LockExactly` | src/touches.rs:102-145 | over every run there is a lock exactly while some writer that took it has not given it back, and that writer owns it |
| `TouchProtocol.CriticalExactly` | src/touches.rs:102-145 | a writer is in the critical section exactly from taking the lock to giving it back or crashing |
| `TouchProtocol.RecordingCompletes` | src/touches.rs:219-223 | progress: from every reachable state with the lock free, an idle writer can begin, take the lock, read, write, rename and release one step after the other; then the lock is free again and the file is the old ring with the entry pushed and trimmed |
| `TouchProtocol.LockIsGivenBack` | src/touches.rs:141-145 | wherever a writer stands between taking and releasing the lock, it can give it back, also after a failure |
| `TouchProtocol.LeftoverIsBroken` | src/touches.rs:116-125 | eleven seconds on, any waiting writer can break whatever lock there is, and goes on trying |
| `TouchProtocol.WaiterMoves` | src/touches.rs:105-137 | what a waiting writer can do, exactly: found the lock taken less than 200 times, it takes a free lock, spins at one taken at most ten seconds ago and judges an older one left over; after 200 times it gives up |
| `TouchProtocol.RingIsSequential` | src/touches.rs:219-223 | the ring file is the renamed entries pushed and trimmed one after the other; no entry is lost; readers see whole rings, each one of that sequence |
| `TouchProtocol.ReadersSeeTheRing` | src/touches.rs:149-164 | a reader got the ring of exactly the entries renamed by the time it looked |
| `TouchProtocol.OldOrNewRing` | src/touches.rs:268-282 | every step, a crash included, leaves the old ring or the ring with one more entry |
| `TouchProtocol.StaleLocksBreakExclusion` | src/touches.rs:117-127 | without the assumption on stale locks two writers can hold the lock |
| `Paths.JoinAssociative` | src/endpoints.rs:6780-6790 | mounting in two steps is mounting at the joined prefix |
| `PathMeaning.JoinMeaning` | src/endpoints.rs:6780-6790 | slashes around the prefix and in front of the rest give way to one slash in front and one between |
| `Paths.SegsOfJoin` | src/endpoints.rs:6780-6790 | joining paths concatenates their segments |
| `Slashes.SegsAtSlash` | src/endpoints.rs:6839-6841 | the segments of two strings with a slash between them are those of both |
| `Slashes.SegsOfWhole` | src/endpoints.rs:6839-6841 | a non-empty string without a slash is one segment |
| `Paths.NormalizeOfJoin` | src/endpoints.rs:6781-6831 | for plain paths, normalising a joined path concatenates the normalised segments |
| `PathMeaning.NormalizeMeaning` | src/endpoints.rs:6792-6831 | by place: whatever white space, scheme, host, query or fragment surrounds a path, the result has single slashes and as many segments; segment i is "{*}" exactly when the raw one starts with one of : < * $ or holds {, else it is the raw one with A to Z made small |
| `PathMeaning.EveryPathHasParts` | src/endpoints.rs:6795-6812 | every input that is not blank has the parts that `NormalizeMeaning` speaks of, so it covers all of them |
| `PathMeaning.NothingToNormalize` | src/endpoints.rs:6796-6799 | no result exactly for blank input |
| `PathMeaning.SchemeDrops` | src/endpoints.rs:6800-6806 | scheme and host leave no trace |
| `PathMeaning.QueryExactly` | src/endpoints.rs:6800-6812 | a query is dropped if there is no "://" in it; one that has it decides the result alone |
| `PathMeaning.QueryWins` | src/endpoints.rs:6800-6806 | a family of paths that are normalised to the path of an address in their query |
| `NormalForm.MarksKept` | src/endpoints.rs:6807-6812 | a query or fragment mark survives if and only if the first mark opens an interpolation and one lies in a segment that is no parameter |
| `NormalForm.NormalizeTwice` | src/endpoints.rs:6792-6831 | on every input a second pass changes nothing if and only if no mark is left and no white space at the end |
| `NormalForm.NormalizeTwiceExactly` | src/endpoints.rs:6792-6831 | the same, as a condition on the input |
| `NormalForm.NormalizeIdempotent` | src/endpoints.rs:6792-6831 | idempotent on input without white space and without "#{" |
| `NormalForm.InterpolationIsNotIdempotent` | src/endpoints.rs:6807-6812 | a family of inputs where a mark is left and it is not |
| `NormalForm.SpaceIsNotIdempotent` | src/endpoints.rs:6796-6812 | a family of inputs where white space is left and it is not |
| `GoPrefix.OneRound` | src/endpoints.rs:1453-1477 | the loop over the edges is `Round` |
| `GoPrefix.Prefixes` | src/endpoints.rs:1439-1483 | stopping early gives what eight rounds give |
| `GoPrefix.RoundMerges` | src/endpoints.rs:1454-1477 | a function's entry sums up the edges into it, order apart: a conflict if and only if a value is unknown or two prefixes differ, High if and only if all are |
| `GoPrefix.EdgeOrderDoesNotMatter` | src/endpoints.rs:1439-1442 | neither order nor repetition of edges changes any number of rounds |
| `GoPrefix.RoundsReachFixpoint` | src/endpoints.rs:1439-1442 | on edges without chains above eight the eight rounds end at the only fixpoint of a round |
| `GoPrefix.PrefixMeaning` | src/endpoints.rs:1439-1483 | an entry if and only if mounted; a conflict if and only if an unknown segment or a disagreement lies at or above; else what every maximal chain composes to, High if and only if all those chains are |
| `Mounts.UpsertValsMeaning` | src/endpoints.rs:427-441 | a key ends with its one value, or poisoned when two differ or one is unknown |
| `Mounts.UpsertMountFilesMeaning` | src/endpoints.rs:408-425 | the same on prefixes alone, keeping the first origin |
| `Mounts.Facts.UpsertVal` | src/endpoints.rs:427-441 | the map stays the summary of all facts recorded |
| `Mounts.Facts.UpsertMount` | src/endpoints.rs:395-406 | the same for known values |
| `Mounts.FileMounts.UpsertMountFile` | src/endpoints.rs:412-425 | the same for mounted files |
| `Mounts.FoldJoinRegroups` | src/endpoints.rs:6780-6790 | inner mounts may be composed first |
| `Mounts.PyMountMeaning` | src/endpoints.rs:6423-6453 | resolved if and only if the mounts lead, over at most thirteen files and past no poisoned fact, to an unmounted one; then it is one fold of joins along them |
| `Mounts.PyMountNone` | src/endpoints.rs:6433-6443 | no mount on any cyclic or poisoned chain |
| `Mounts.Climb` | src/endpoints.rs:5428-5438 | the climb meets no function twice, so it ends on every map |
| `Mounts.CollectSegments` | src/endpoints.rs:5425-5438 | the loop collects the segments along the climb |
| `Mounts.RustFnPrefix` | src/endpoints.rs:5422-5442 | the loop computes `RustPrefix` on every map |
| `Mounts.RustPrefixMeaning` | src/endpoints.rs:5425-5442 | on every map, cyclic ones included, the climb up to the last new function is the only one, and the prefix folds its segments outermost first |
| `Mounts.RustPrefixStep` | src/endpoints.rs:5422-5424 | where the mounts come to an end, a nested function's prefix is its parent's joined with its own segment; "/" adds nothing |
| `Mounts.FileMountPrefix` | src/endpoints.rs:352-376 | the loop computes `FileMount` |
| `Mounts.FileMountMeaning` | src/endpoints.rs:348-376 | where the mounts come to an end, up to four links compose as a whole, of more only the four nearest |
| `Mounts.FileMountCases` | src/endpoints.rs:352-371 | every file falls under one of three: an end within four links, a disagreement within four, or four known links |
| `Mounts.FourLinksDecide` | src/endpoints.rs:352-371 | four known links give the fold of those four, whatever lies above, a cycle included |
| `Mounts.FileMountWhole` | src/endpoints.rs:348-376 | where the mounts come to an end, the prefix is the whole composed path if and only if all links beyond the fourth mount at "/" |
| `Mounts.FifthLinkIsLost` | src/endpoints.rs:355 | a map of five links whose prefix is partial |
| `Mounts.AmbiguousMountMeaning` | src/endpoints.rs:348-376 | a disagreement above a file leaves it without a prefix if and only if it lies within four links |
| `Mounts.FarDisagreementIsMissed` | src/endpoints.rs:355 | a map with a disagreement behind the fourth link, and a prefix all the same |
| `Mounts.CycleIsComposed` | src/endpoints.rs:355 | two files mounted from each other are composed twice over |
| `Correlate.UnifyMeaning` | src/endpoints.rs:6843-6848 | templates unify if and only if some concrete path fits both |
| `Correlate.ConcreteMeaning` | src/endpoints.rs:6833-6837 | at least two concrete segments: two places that are not "{*}" |
| `Correlate.HttpMatches` | src/endpoints.rs:6886-6931 | by place: the chosen endpoints, in their order, are exactly the HTTP ones whose method is the client's or either is Any and which share a concrete path with the client's path without its first segments, as few stripped as reach any and never all; a stripped path needs two given segments in the endpoint |
| `Correlate.RpcMatches` | src/endpoints.rs:6865-6884 | by place: other clients get exactly the endpoints of the same kind and path |
| `Correlate.MatchesMeaning` | src/endpoints.rs:6850-6934 | one match per chosen endpoint, with both ids; High exactly when it is the only one, both sides are High and, for HTTP, nothing was stripped and neither method is Any |
| `Correlate.MatchesNext` | src/endpoints.rs:6862-6934 | each client adds its own matches behind those of the clients before it |
| `Correlate.HighMatchIsOnly` | src/endpoints.rs:6850-6854 | a client with a High match has no other |
| `Correlate.HighMatchExactly` | src/endpoints.rs:6850-6854 | a client has a High match if and only if one endpoint alone was chosen, both sides are High, and the whole path and a definite method agree |
| `Correlate.CorrelateOne` | src/endpoints.rs:6864-6932 | the tiers for one client compute `MatchesOf` |
| `Correlate.CorrelateAll` | src/endpoints.rs:6862-6934 | all clients, in order |
| `Correlate.EndpointIndex.Recorrelate` | src/endpoints.rs:6855-6860 | the matches are those of the endpoints there are now |
| `ReverseIndex.MirroredKeys` | src/lsp.rs:890-898 | no empty lists: the keys are exactly the keys in use |
| `ReverseIndex.AddMirrors` | src/lsp.rs:919-922 | pushing a position under a new key keeps an index exact |
| `ReverseIndex.DropMirrors` | src/lsp.rs:892-897 | so does retaining all others and removing an emptied list |
| `Enrichment.BuildIndexes` | src/graph.rs:366-387 | the build loop leaves `calls` in order, per-caller lists exact and ascending, both reverse indexes exact |
| `Enrichment.FlattenedMeaning` | src/graph.rs:366-387 | `calls` is the call sites of each function, one function after the other |
| `Enrichment.GigaGraph.constructor` | src/graph.rs:366-387 | a freshly built graph is valid, nothing confirmed |
| `Enrichment.CandidateSites` | src/lsp.rs:815-846 | the loop computes `CandidateList` |
| `Enrichment.CandidateListMeaning` | src/lsp.rs:811-814 | no site twice, only sites worth asking about, at most 2000, all of them if there are fewer |
| `Enrichment.CandidateOrder` | src/lsp.rs:811-846 | ambiguous sites in call order, then the others in call order, cut at 2000 |
| `Enrichment.AmbiguousFirst` | src/lsp.rs:811-814 | a plain site is asked about only when every ambiguous one is |
| `Enrichment.FunctionAt` | src/lsp.rs:848-869 | the first function starting on the line, else the first of the shortest that span it, else none; never a synthetic top level |
| `Enrichment.LocatesOnce` | src/lsp.rs:848-851 | an answer has one target |
| `Enrichment.GigaGraph.ApplyAnswer` | src/lsp.rs:871-903 | the call re-pointed, both indexes exact, true if and only if the callee changed |
| `Enrichment.GigaGraph.Externalize` | src/lsp.rs:905-929 | the call attributed to the package, both indexes exact |
| `Enrichment.Collect` | src/lsp.rs:981-1044 | cached answers, then the server's, without missing ones past the deadline |
| `Enrichment.AnswersMeaning` | src/lsp.rs:981-1044 | which answer a site gets: the cached one, or what the server said at the place of the site in the request, which lists the uncached sites in order; a missing answer past the deadline is no answer |
| `Enrichment.AnswersOnce` | src/lsp.rs:981-1044 | no site is answered twice |
| `Enrichment.AnswersAreOpen` | src/lsp.rs:815-830 | answers are for internal calls that no server has settled |
| `Enrichment.GigaGraph.SettleAll` | src/lsp.rs:1048-1071 | every answer settled as it says, no other call touched, each counted once |
| `Enrichment.GigaGraph.EnrichWith` | src/lsp.rs:969-1071 | one provider's share: the calls become what its answers say, and earlier settled ones stay |
| `Enrichment.PassOnce` | src/lsp.rs:955-959 | what a pass leaves behind is determined by the graph and the answers |
| `Enrichment.AccountsStep` | src/lsp.rs:1053-1070 | settling one more call keeps the books: counts by what became of each call, and recounts of both buckets |
| `Enrichment.SettledIsCounted` | src/lsp.rs:1053-1064 | the settled calls are as many as confirmed and corrected together |
| `Enrichment.Index.constructor` | src/indexer.rs:373-386 | fresh statistics are a recount of all three buckets |
| `Enrichment.Index.Enrich` | src/lsp.rs:960-1088 | after the pass the indexes are exact, `lsp_confirmed` has grown by confirmed + corrected, the adjusted statistics are a recount, and each provider's turn did what its answers say |
| `Framing.ReadMessage` | src/lsp.rs:347-371 | header lines, of which those that are not UTF-8 end the stream and unknown ones are skipped, then as many bytes as announced; or the end |
| `Framing.ReadFramedMessages` | src/lsp.rs:342-378 | the reader delivers exactly the bodies that `Decode` finds and that parse |
| `Framing.MessageReads` | src/lsp.rs:350-376 | a message is read whatever other header lines stand before or after its length, and blank lines before it |
| `Framing.LengthMeaning` | src/lsp.rs:363 | a length is a number below 2 to the 64, in digits, possibly behind a plus sign |
| `Framing.BadLengthForgets` | src/lsp.rs:362-364 | a length that does not parse undoes one announced before |
| `Framing.MalformedEnds` | src/lsp.rs:352-355 | a header line that is not well-formed ends the stream |
| `Framing.ShortEnds` | src/lsp.rs:368-371 | so does a body shorter than announced |
| `Framing.FrameText` | src/lsp.rs:654-660 | a frame is "Content-Length: ", the length in digits, two line ends, and the body |
| `Framing.DecodeEncode` | src/lsp.rs:342-378 | framed bodies in front of any stream are read back first, unchanged |
| `Framing.RoundTrip` | src/lsp.rs:345-378 | reading what was sent gives the list of bodies sent |
| `Uris.PercentDecode` | src/lsp.rs:592-608 | the loop computes the lossy text of `PercentDecoded` |
| `Utf8.LossyKeepsExactly` | src/lsp.rs:607 | the lossy conversion changes exactly what is not well-formed |
| `Utf8.CharMeaning` | src/lsp.rs:607 | a well-formed character is exactly an encoded scalar value |
| `Utf8.BadMeaning` | src/lsp.rs:607 | one replacement stands for the longest beginning of a character, or for one byte |
| `Utf8.LossyMeaning` | src/lsp.rs:607 | characters stay; what is replaced, is replaced by U+FFFD |
| `Utf8.SpaceMeaning` | src/lsp.rs:357 | what trimming takes off is exactly the encoded white-space characters |
| `Uris.DecodeInvertsEncode` | src/lsp.rs:592-608 | decoding inverts encoding on every byte string |
| `Uris.EscapeMeaning` | src/lsp.rs:561-571 | letters, digits and - . _ ~ / : stand for themselves, all else is %XY in capitals |
| `Uris.HexMeaning` | src/lsp.rs:597-598 | hexadecimal digits are read in either case |
| `Uris.UriText` | src/lsp.rs:555-573 | "file://", a slash if the path has none in front, and the path encoded |
| `Uris.PathTexts` | src/lsp.rs:202-214 | what marks a path as verbatim is dropped and backslashes become slashes |
| `Uris.HostDropped` | src/lsp.rs:574-583 | the host of a URI is dropped; another scheme, or no path, is refused |
| `Uris.UriReads` | src/lsp.rs:552-590 | what comes back of any path |
| `Uris.UriRoundTrip` | src/lsp.rs:552-590 | a path comes back if and only if it is UTF-8, has no backslash, and is absolute without looking like "/X:", or is a drive path |
| `CallPath.Search` | src/api.rs:715-743 | the search ends; what it finds lies at its true distance, and what it misses is beyond the limit |
| `CallPath.WalkBack` | src/api.rs:753-765 | back along `prev` ends at the source, with as many real calls as the depth says |
| `CallPath.FindCallPath` | src/api.rs:702-765 | found if and only if a chain within the limit exists; the chain is real and no other is shorter |
| `Innermost.PartitionPoint` | src/extract.rs:538 | ranges up to the position, by halving |
| `Innermost.FindOwner` | src/extract.rs:536-548 | the scan with its cut-off agrees with the full scan for the last range that holds the position; none exactly when none does |
| `Innermost.OwnerIsInnermost` | src/extract.rs:536-537 | among nested ranges that one is inside, and shorter than, every other that holds the position |
| `Innermost.RangeOrderDoesNotMatter` | src/extract.rs:494-495 | the order of collection does not show |
| `Innermost.OwnedMeaning` | src/extract.rs:549-552 | every call is attributed once, in order |
| `Innermost.Attribute` | src/extract.rs:494-553 | sorting, prefix maxima, scan and attribution together |
| `TopK.CutThenSort` | src/vector.rs:148-154 | whatever order the partition left, cutting and sorting gives the front of the full sort |
| `TopK.BestIsPrefix` | src/vector.rs:149-151 | the answer for k is a prefix of the answer for k + 1 |
| `TopK.BestMeaning` | src/vector.rs:148-154 | in scores and ids: at most k rows of positive score, not excluded, higher scores first and equal ones by id; a row in the running that is left out finds k rows in the answer, each of a higher score, or the same and a lower id |
| `TopK.Find` | src/vector.rs:125-155 | the selection computes exactly that answer |
| `SplitWords.Split` | src/verbs.rs:17-76 | the loop over the characters is the state machine |
| `SplitWords.KindsAre` | src/verbs.rs:25-35 | on ASCII: which characters are small letters, capitals and digits |
| `SplitWords.LowerCase` | src/verbs.rs:70 | on ASCII: capitals become the small letters of the same place |
| `SplitWords.WordsByPlace` | src/verbs.rs:14-16 | the words are those cut at camel boundaries, letter-digit changes and acronym ends, a definition by place alone |
| `SplitWords.WordsAreCanonical` | src/verbs.rs:14-16 | non-empty words, each all letters or all digits, together the lowercased alphanumerics |
| `SplitWords.SnakeRoundTrip` | src/verbs.rs:1-4 | words joined by underscores come back |
| `SplitWords.CamelRoundTrip` | src/verbs.rs:14-16 | words in camelCase come back if and only if no two single letters follow each other behind the first word |
| `ConstSubstitution.Advance` | src/graph.rs:583-585 | the next insertion lies as many places further on as insertions were made, and leaves one more literal passed |
| `ConstSubstitution.SubstituteConsts` | src/graph.rs:562-586 | inserting in place with a running offset is the one pass over the literals |
| `ConstSubstitution.PassMeaning` | src/graph.rs:562-586 | the pass keeps every literal in order, each followed, if it is a positional identifier that names a constant, by a string with the first such constant's value and the same index |

## Left out

- RingIsSequential: rests on the assumption, stated as `NoLockOutlives`, that no lock gets older than `STALE_AFTER`; `StaleLocksBreakExclusion` shows that it is needed.
- MutualExclusion: rests on the same assumption, as do `LockExactly`, `OldOrNewRing`, `RecordingCompletes` and `ReadersSeeTheRing`.
- RecordingCompletes: that the steps can be taken; that the scheduler takes them is not modelled.
- DepthPromise: speaks of closure and distances together; the closure alone can also hold on a graph with a High detour, depending on the order of its edges.
- IncrementalExactly: speaks of one trim in between; `RunIsHistoryExactly` speaks of a run.
- RoundsReachFixpoint: asks for chains of at most eight edges; longer or cyclic ones stop at the eighth round, fixpoint or not.
- Find: scores are real numbers given as input; the embedding, its floating point and the empty answer to a query of the wrong length are not modelled.
- SelectNth: the library's selection is modelled by what it promises, and library sorts by insertion sort.
- ReadFramedMessages: whether a body parses as JSON is a predicate; lengths are parsed as 64-bit words.
- UriToPath: paths are byte strings, as on Unix.
- RecordTouch: the clock, path normalisation and trimming are parameters; file system errors are steps of `TouchProtocol`.
- TouchProtocol: the file systems' promises that creating the lock and renaming are atomic are built into the steps, and every temporary file is keyed by its process.
- Collect: the cache of answers and the deadline are given as part of the provider; writing the cache is not modelled.
- EnrichWith: reading a package off a path (`external_package_for`) is a parameter.
- `recent` and suffix matching of file names in src/touches.rs: a filter of the ring.
- `actix_chain_prefix` and the framework tables that produce endpoints, clients and mount edges: long lists of conventions.
- The resolution ladder that produces call sites, bridge discovery, and the extraction from syntax trees.
- Returned strings and typed locals in src/extract.rs: the same scan as for calls, with small caps.
- Unicode: in route paths, identifiers and reasons white space, case and letters are those of ASCII; header lines are trimmed of all Unicode white space.
- JSON, caches, processes, channels, timeouts and presentation.
