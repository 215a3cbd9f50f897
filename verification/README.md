# Verified model of the memory server's algorithms

This project models the parts of the Go server that are algorithms or state machines and proves what
they guarantee. Each module follows one component:

- `Delegation`: structural validation of sub-agent plans and their batching by dependency order.
- `TaskGraph`, `VibeSpec`: the cycle search over spec tasks, the rules a spec must meet, and plans made from it.
- `LruCache`, `LruTheorems`: the bounded LRU with lazy expiry (a list, an index, and the recency-ordered
  contents they represent), and what whole traces of operations guarantee.
- `CachedProvider`: the lock and single-flight protocol around that cache, as interleaved steps of any
  number of callers.
- `SqlSplitter`, `SplitTheorems`, `SplitSegments`, `KeywordRule`: the six-state lexer that cuts a migration body into
  statements, what it guarantees, what it makes of literals, comments, blocks and dollar quotes, and when it follows its
  documented keyword rule.
- `Migrate`: the migration runner over a durable store, and runs with crashes at any point.
- `HashChain`, `Merkle`, `Audit`: collision-free chains in the abstract, the drift-report chain and the
  HMAC audit stream.
- `LlmHealth`, `LlmFailover`: provider failure accounting and cooldowns, candidate order and one failover call.
- `JudgeParse`, `JudgePhrases`: the last-occurrence verdict scan over a free-form reply, and what it answers to the
  ways a judge writes down a conclusion.
- `Economy`: duplicate removal, confidence filter and top-N cap of retrieved items.
- `Resolver`: byte caps, ranges and capped buffers of artifact reads.

`dafny verify dfyconfig.toml` checks everything.

Components that the program updates in place are classes or loop methods here, each proved equal to a
specification function; the theorems are lemmas about those functions, so they hold of the methods.
State that several callers touch concurrently is a state machine with one event per step on that state. The hit and
miss counters change in steps of their own, the error and put counters together with the step beside them.

## Modelling assumptions

- SHA-256, HMAC-SHA256 and the JSON encoder are one abstract step function for each chain, assumed
  collision-free and never producing the genesis value or the empty text. `HashChain.TermsAreCollisionFree`,
  `Merkle.SoundSchemeExists` and `Audit.SoundMacExists` show that the assumptions can be met. In the program the
  previous link is either empty or of fixed length and the JSON starts with a brace, so the concatenation that is
  hashed is unambiguous. HMAC keys are hashed when long and zero-padded to a block as in section 2 of RFC 2104; the
  digest is assumed injective in the padded key, not in the secret.
- The SHA-256 of a cache key is represented by its NUL-joined preimage.
- Time and confidence are integers, text is ASCII, integers are unbounded. The clock, the inner provider,
  the SQL engine and the attempt at each LLM provider are parameters that may answer anything.
- Sorting, last-index search, replace-all and lower-casing are library calls, given by functions.

## Where the code and its comments disagree

The code is followed; the lemma named states the consequence.

- `CacheStats` says hits plus misses count the successful calls; they count every call once it has hit or missed
  (`CachedProvider.CountersBalance`). In every reachable state the comment is right iff nothing has failed, no inner
  call is running or answered, and nobody is leaving (`CachedProvider.DocumentedCountIff`; failing runs in
  `CachedProvider.FailureIsCounted` and `CachedProvider.RunningCallIsCounted`). Waiters stay at zero, because the lock
  is held during the inner call.
- `isStandaloneKeyword` is documented to want white space or nothing before the keyword and no word character after
  it. It also takes a keyword after "(" and never sees what follows. A turn follows the rule iff it does not misread
  a keyword in one of these ways (`KeywordRule.TurnIff`), a whole run passes through the documented states iff no turn
  of it does (`KeywordRule.RunIff`), and a body without such places is read as documented
  (`KeywordRule.CleanBodiesFollowTheRule`). Failing inputs: `KeywordRule.BeginIdentifierSwallows`,
  `KeywordRule.EndIdentifierSplits` with `KeywordRule.DocEndReadsOn`, `KeywordRule.ParenthesisSwallows`.
- A dollar close may share its first `$` with the opening tag (`SplitTheorems.OverlappingClose`); the exact
  condition is in `SplitTheorems.DollarCloseExactIff`, about the machine by `SplitTheorems.DollarRun` and
  `SplitTheorems.DollarStaysOpen`.
- Trimming a line comment drops the newline that ended it, so rejoining a split body may not parse back
  (`SplitTheorems.RoundTripFails`, exact condition `SplitTheorems.RoundTripIff`).
- The merkle verifier says `RowsSkipped` counts only leading empty rows. That holds iff no later row without a root
  follows a chain that passes up to it (`Merkle.DocumentedSkipsIff`); three rows that break it in `Merkle.GapInTheMiddle`.
- The HMAC notes say the canary flag is cleared before signing. It is signed: the link is the documented one iff the
  flag is clear (`Audit.CanaryClearedIff`), and changing it is detected (`Audit.TamperReported`).
- They also say that other known keys are tried as a fallback. Only the declared id is tried: the two agree on a row
  iff it is incomplete, out of place, or no key but the declared one signed it (`Audit.FallbackIff`; a row on which
  they differ in `Audit.MislabelledRowRejected`).
- `filterConfidence` says a negative threshold keeps nothing; it keeps everything. The comment holds iff the threshold
  is not negative or there are no items (`Economy.DocumentedThresholdIff`).
- `dedup` says a duplicate URL or a duplicate title and source; the key is all three together. No such duplicate is
  left iff items that share one of them share all three (`Economy.DocumentedDuplicatesIff`; two items that stay in
  `Economy.SameUrlKept`).
- `capTop` says input order is kept; with repeated ids it may not be (`Economy.RepeatedIdReorders`, exact
  condition `Economy.CapIff`).
- `InCooldown` and `FilterCandidates` differ at the instant a cooldown ends (`LlmHealth.RoutableIff`).
- `Range` says both bounds are inclusive; the window is half-open (`Resolver.RangeServed`). A range that fits is served
  as documented, cut to the cap, iff its end is past the source, before its start or a whole cap behind the start
  (`Resolver.InclusiveBoundsIff`; an input in `Resolver.EndIsExcluded`).
- Open-ended ranges are said to be bounded by start plus cap; the read limit is cap plus one from the start of the
  source, and a negative start counts as zero. Fewer bytes may be served (`Resolver.OpenRangeFallsShort`) or more
  (`Resolver.NegativeStartServesMore`); the exact condition on the source is `Resolver.OpenRangeDocumentedIff`.
- The batcher's comment says the spec validator rejects cycles, and the validator's that no in-spec dependencies are
  circular. Its cycle search skips every dependency that starts with `ext:`, even one that is a task. Plans made from an
  accepted spec need no fallback iff every dependency is in the spec and no circle passes through such an id
  (`VibeSpec.AcceptedFallbackIff`; two tasks in `VibeSpec.ExternalIdsSlipThrough`).
- `detectCycle` says the reported path runs from start to end and back to start. It names the start twice and then goes
  on to the end, so it is a circle iff the first path that closes, in task and dependency order, does so at a task that
  depends on itself (`TaskGraph.DocumentedReportIff`; an input in `TaskGraph.ReportOfTwo`). The validator calls the
  search breadth-first; it is depth-first.

## Model

| member | source | states |
|---|---|---|
| `Delegation.Validate` | internal/delegation/types.go:160-190 | accepts iff ids are non-empty and unique, cases parse, no task depends on itself and every dependency exists; the error is the first offence in checking order |
| `Delegation.WellFormedIff` | internal/delegation/types.go:160-190 | acceptance in plain terms: ids given and distinct, cases parse, every dependency names another task of the plan |
| `Delegation.Batch` | internal/delegation/types.go:87-130 | the batches are the specified layers, plus one fallback batch when a pass makes no progress |
| `Delegation.Pass` | internal/delegation/types.go:97-112 | one pass separates ready from waiting tasks in order, with the ids resolved before the pass |
| `Delegation.MarkResolved` | internal/delegation/types.go:117-119 | after a pass exactly the ids of its batch become resolved |
| `Delegation.BatchIsPermutation` | internal/delegation/types.go:87-130 | for every plan the concatenated batches are a permutation of the subtasks |
| `Delegation.LayerMeaning` | internal/delegation/types.go:96-127 | a task in layer k is ready after the layers before it and was not ready one layer earlier |
| `Delegation.Placed` | internal/delegation/types.go:96-129 | every task is in a layer or in the fallback |
| `Delegation.FallbackIsGreatestDeadlock` | internal/delegation/types.go:120-125 | for every plan, validated or not, the fallback is the largest set of tasks that wait only for one another or for missing ids |
| `Delegation.ValidatedIsResolvable` | internal/delegation/types.go:160-190 | acceptance gives what the graph theorems need: unique ids and existing targets |
| `Delegation.DependencyLayer` | internal/delegation/types.go:85-86 | every dependency of a layered task lies in a strictly earlier layer |
| `Delegation.LayerIsLongestChain` | internal/delegation/types.go:87-130 | the layer index of a task is exactly the length of its longest dependency chain |
| `Delegation.BatchesByLongestChain` | internal/delegation/types.go:87-130 | on a validated acyclic plan, batch k is exactly the set of tasks whose longest chain has k edges |
| `Delegation.BatchIsEarliest` | internal/delegation/types.go:87-130 | no assignment of levels that respects dependencies puts any task earlier |
| `Delegation.FallbackIsCycleClosure` | internal/delegation/types.go:120-125 | on a validated plan the fallback is exactly the tasks that transitively depend on a cycle |
| `Delegation.FallbackIffCyclic` | internal/delegation/types.go:120-125 | on a validated plan the fallback is taken iff the graph has a cycle |
| `Delegation.ValidateAcceptsCycle` | internal/delegation/types.go:120-125 | the structural check admits cycles, so a hand-built plan that passes it can still need the fallback |
| `TaskGraph.DetectCycle` | internal/orchestration/vibe_spec.go:491-553 | the search that skips finished tasks reports exactly what the exhaustive search over all simple paths finds first, and nothing iff the dependencies have no loop |
| `TaskGraph.BuildGraph` | internal/orchestration/vibe_spec.go:497-503 | dependencies by id, a later task replacing an earlier one of the same id; all colours white |
| `TaskGraph.CycleSearch.Start` | internal/orchestration/vibe_spec.go:531-533 | a task is searched from iff no earlier start reached it, and skipping it then loses nothing |
| `TaskGraph.CycleSearch.Dfs` | internal/orchestration/vibe_spec.go:507-529 | finds something iff the exhaustive search from the same path does, with its back edge recorded and the parents leading back along its path; otherwise the task is finished and what was finished before stays so |
| `TaskGraph.CycleSearch.Turn` | internal/orchestration/vibe_spec.go:509-526 | one turn of the dependency loop: the rest of the search, or its answer |
| `TaskGraph.CycleSearch.Visit` | internal/orchestration/vibe_spec.go:513-525 | white goes on, grey closes a path, black leads nowhere |
| `TaskGraph.CycleSearch.CyclePath` | internal/orchestration/vibe_spec.go:534-549 | the parent walk and the reversal give the start and then the way round |
| `TaskGraph.FinishedIsBarren` | internal/orchestration/vibe_spec.go:513-528 | whatever path is tried through a finished task, nothing is found |
| `TaskGraph.SearchIsLasso` | internal/orchestration/vibe_spec.go:507-525 | what is found is a path of dependencies without repetition that returns to itself |
| `TaskGraph.FoundIffLoop` | internal/orchestration/vibe_spec.go:488-490 | searching from every task finds something iff there is a loop |
| `TaskGraph.WalkIsLoop` | internal/orchestration/vibe_spec.go:534-544 | the way round, closed at its start, is a loop of the graph with no other repetition |
| `TaskGraph.DocumentedReportIff` | internal/orchestration/vibe_spec.go:534-549 | the report is a loop of the graph iff the first path that closes does so at a self-dependency |
| `TaskGraph.FirstLassoIsFirst` | internal/orchestration/vibe_spec.go:509-531 | what is found starts at the first task, and goes on with the first dependency each time, that leads to anything |
| `TaskGraph.ReportOfTwo` | internal/orchestration/vibe_spec.go:544-549 | two tasks a and b that depend on each other are reported as a, a, b |
| `VibeSpec.CheckTasks` | internal/orchestration/vibe_spec.go:330-374 | accepts iff there are tasks, ids are unique, ids and descriptions are not blank, dependencies are external or in the spec and have no loop; the error is the first offence in checking order |
| `VibeSpec.CheckDependencies` | internal/orchestration/vibe_spec.go:354-368 | finds the first dependency that is neither external nor in the spec |
| `VibeSpec.RulesIff` | internal/orchestration/vibe_spec.go:330-368 | the rules in plain terms: tasks, nothing blank, distinct ids, every dependency external or the id of a task |
| `VibeSpec.LoopIffCyclic` | internal/orchestration/vibe_spec.go:488-553 | with unique ids and no external references there is a loop iff the plan graph is cyclic |
| `VibeSpec.AcceptedFallbackIff` | internal/delegation/types.go:120-125 | a plan with the tasks of an accepted spec needs no fallback iff every dependency is in the spec and no circle passes through an id that starts with "ext:" |
| `VibeSpec.AcceptedNeedsNoFallback` | internal/delegation/types.go:120-125 | without external references an accepted spec never needs the fallback |
| `VibeSpec.ExternalIdsSlipThrough` | internal/orchestration/vibe_spec.go:510-512 | two tasks with such ids that depend on each other pass both validators and need the fallback |
| `LruCache.DigestInjective` | internal/nli/cache.go:41-65 | equal digests mean equal keys while provider id and premise hold no NUL |
| `LruCache.DigestCollision` | internal/nli/cache.go:41-65 | with a NUL two different keys share a digest |
| `LruCache.NewInMemoryLRU` | internal/nli/cache.go:129-138 | refuses exactly the caps below one, otherwise an empty valid cache |
| `LruCache.InMemoryLRU.constructor` | internal/nli/cache.go:133-137 | a new cache is valid and empty |
| `LruCache.InMemoryLRU.Get` | internal/nli/cache.go:192-214 | list and index stay in step; answer and new recency order are those of the sequence model, an expired entry is removed |
| `LruCache.InMemoryLRU.Put` | internal/nli/cache.go:218-254 | invalid key, then invalid TTL are refused unchanged; otherwise the new recency order of the model, and the returned size is its length |
| `LruCache.InMemoryLRU.Store` | internal/nli/cache.go:225-253 | the locked part of Put: the entry is in front once, the least recent ones above the cap are gone |
| `LruCache.InMemoryLRU.Overwrite` | internal/nli/cache.go:229-232 | replacing in place changes that entry and no other |
| `LruCache.InMemoryLRU.EvictOverCap` | internal/nli/cache.go:241-252 | the loop drops exactly the least recent entries above the cap, from list and index alike |
| `LruCache.InMemoryLRU.PopBack` | internal/nli/cache.go:242-248 | one eviction removes the last entry only |
| `LruCache.InMemoryLRU.Remove` | internal/nli/cache.go:207-208 | an element leaves list and index together |
| `LruCache.InMemoryLRU.PushFront` | internal/nli/cache.go:237-239 | a new element enters in front of the list and in the index |
| `LruCache.InMemoryLRU.MoveToFront` | internal/nli/cache.go:212 | the element comes first and the others keep their order |
| `LruCache.InMemoryLRU.Clear` | internal/nli/cache.go:257-262 | the cache is empty |
| `LruCache.InMemoryLRU.Size` | internal/nli/cache.go:266-270 | the number of entries, never above the cap |
| `LruTheorems.InclusionStep` | internal/nli/cache.go:192-262 | one operation on caches of capacity n <= m keeps inclusion: the small recency list is a subsequence of the large one with equal values and expiries, the large has at most m - n extra keys |
| `LruTheorems.Inclusion` | internal/nli/cache.go:192-262 | the same over any trace, and every hit of the small cache is the same hit in the large one |
| `LruTheorems.InclusionFromEmpty` | internal/nli/cache.go:192-262 | more capacity never loses a hit, from two empty caches |
| `LruTheorems.Retention` | internal/nli/cache.go:192-254 | after touches of fewer than capacity distinct other keys the front entry answers its value up to its expiry time and nothing after it |
| `LruTheorems.ServedUntil` | internal/nli/cache.go:192-254 | a score put at time t with a time to live is answered until t plus that time and missed afterwards, whatever fewer than capacity other keys do in between |
| `LruTheorems.LookDropsExpired` | internal/nli/cache.go:200-213 | a Get after the expiry drops that entry; otherwise every key finds what it found before |
| `LruTheorems.FrontAfter` | internal/nli/cache.go:212-239 | a put or a hit leaves its entry in front, with the latest value and expiry |
| `LruTheorems.Eviction` | internal/nli/cache.go:236-252 | as many distinct puts as the capacity evict every other key |
| `CachedProvider.InvStep` | internal/nli/cached_provider.go:106-186 | every step of every caller keeps the whole invariant |
| `CachedProvider.SingleFlight` | internal/nli/cached_provider.go:106-186 | in every reachable state at most one inner call runs, nothing is in flight while the lock is free, and no caller ever waits on another's call |
| `CachedProvider.AnswersAreGenuine` | internal/nli/cached_provider.go:106-186 | every answer came from an inner call for the same digest and the cache holds only successes of the inner provider |
| `CachedProvider.AnswersAreForTheKey` | internal/nli/cached_provider.go:106-186 | with no NUL in provider ids and premises, "same digest" is "same key" |
| `CachedProvider.CountersBalance` | internal/nli/cached_provider.go:106-198 | with the lock free, misses are puts plus inner errors, hits plus misses are the returned calls plus the callers counted and about to return, and inner errors are the failures among these |
| `CachedProvider.DocumentedCountIff` | internal/nli/cached_provider.go:32-42 | in every reachable state the documented count of successful calls holds iff no inner call has failed, none is running or answered by the lock holder, and no caller is about to return |
| `CachedProvider.RunningCallIsCounted` | internal/nli/cached_provider.go:32-42 | while the first call runs the count is one and no call has returned |
| `CachedProvider.FailureIsCounted` | internal/nli/cached_provider.go:32-42 | a run of one caller whose inner call fails ends idle with a count of one and no success |
| `CachedProvider.StoredResultsAccounted` | internal/nli/cached_provider.go:157-186 | per digest, successful inner calls equal removals so far plus one if present |
| `CachedProvider.ComputedOnce` | internal/nli/cached_provider.go:102-127 | while a key is neither expired nor evicted its first success is its only success and its last inner call |
| `CachedProvider.NotRecomputing` | internal/nli/cached_provider.go:117-126 | nor is another inner call for it running |
| `CachedProvider.WrittenIsServed` | internal/nli/cached_provider.go:157-186 | what a caller writes is served for the configured time to live and not after it |
| `CachedProvider.LiveKeyIsServedFast` | internal/nli/cached_provider.go:106-112 | a caller that finds a live entry is answered from it whoever holds the lock: one more hit, the entry in front, no inner call |
| `CachedProvider.LiveKeyEndsTheWait` | internal/nli/cached_provider.go:113-124 | the same for a caller that finds it under the lock, which it then releases |
| `CachedProvider.SomeoneCanMove` | internal/nli/cached_provider.go:117-186 | no deadlock: while some caller is inside, some caller inside can step |
| `CachedProvider.StepsRunOut` | internal/nli/cached_provider.go:106-186 | every step but a new call strictly shortens the work left |
| `SqlSplitter.IsStandaloneKeyword` | internal/migrate/split_statements.go:211-249 | true iff the buffer ends with the keyword, case ignored, after the buffer start, white space or "(" |
| `SqlSplitter.ScanDollarTag` | internal/migrate/split_statements.go:263-295 | the tag found is the one the rest of the text starts with, empty if there is none |
| `SqlSplitter.CountKeyword` | internal/migrate/split_statements.go:113-131 | inside a block BEGIN adds one, END takes one, and depth zero returns to the normal state |
| `SqlSplitter.InsideTurn` | internal/migrate/split_statements.go:74-131 | one turn outside the normal state is one step of the machine |
| `SqlSplitter.NormalTurn` | internal/migrate/split_statements.go:133-183 | one turn in the normal state is one step of the machine |
| `SqlSplitter.SplitSQL` | internal/migrate/split_statements.go:63-193 | the loop with lookahead computes the machine's trimmed non-empty pieces |
| `SqlSplitter.AppendTrimmed` | internal/migrate/split_statements.go:175-191 | a piece is kept iff it is more than white space, and is kept trimmed |
| `SplitTheorems.LexConserves` | internal/migrate/split_statements.go:63-193 | the untrimmed pieces rejoined at the dropped semicolons are the body |
| `SplitSegments.LiteralRun` | internal/migrate/split_statements.go:91-102 | a literal is carried over whole, with its semicolons and doubled quotes, and the machine is back in the normal state |
| `SplitSegments.LiteralStaysOpen` | internal/migrate/split_statements.go:91-102 | without a closing quote the rest of the body is one literal |
| `SplitSegments.LineCommentRun` | internal/migrate/split_statements.go:75-80 | a line comment is carried over up to its newline |
| `SplitSegments.BlockCommentRun` | internal/migrate/split_statements.go:82-89 | a block comment is carried over up to its first end |
| `SplitSegments.BeginOpens` | internal/migrate/split_statements.go:165-172 | BEGIN in any case, at the start or after white space or "(", opens a block |
| `SplitSegments.BlockToEnd` | internal/migrate/split_statements.go:113-131 | a block runs to the first place where as many ENDs as BEGINs have been read |
| `SplitSegments.TagIff` | internal/migrate/split_statements.go:263-295 | a dollar tag is recognised iff the text starts with one |
| `SplitSegments.DollarQuoteRun` | internal/migrate/split_statements.go:104-111 | a dollar quote is carried over up to its first closing tag, unless it starts with the tag less its first "$" |
| `SplitSegments.PlainRun` | internal/migrate/split_statements.go:133-183 | text that opens nothing and holds no semicolon is carried over |
| `SplitSegments.CutsAtSemicolons` | internal/migrate/split_statements.go:12-16 | a body made of complete segments is cut exactly at the semicolons outside of them |
| `SplitSegments.OpenSegmentTakesAll` | internal/migrate/split_statements.go:12-16 | a segment that is not closed takes the rest of the body without a cut |
| `SplitSegments.SplitAtSemicolons` | internal/migrate/split_statements.go:63-193 | the statements are the trimmed texts between those semicolons |
| `SplitSegments.SplitWithOpenEnd` | internal/migrate/split_statements.go:63-193 | the same when the body ends inside a segment, which belongs to the last statement |
| `SplitTheorems.DepthAndTagTrackState` | internal/migrate/split_statements.go:70-192 | depth is positive exactly in a block and a tag is set exactly in a dollar quote |
| `SplitTheorems.SplitConcat` | internal/migrate/split_statements.go:63-193 | split(a;b) is split(a) followed by split(b) when a ends in the normal state |
| `SplitTheorems.SplitSwallowed` | internal/migrate/split_statements.go:63-193 | otherwise the semicolon is swallowed and the statement there changes |
| `SplitTheorems.SplitConcatIff` | internal/migrate/split_statements.go:63-193 | so the split distributes over ";" iff a ends in the normal state |
| `SplitTheorems.OutputsAreWhole` | internal/migrate/split_statements.go:63-193 | re-splitting any statement returned gives just that statement |
| `SplitTheorems.RoundTripIff` | internal/migrate/split_statements.go:63-193 | joining whole statements and splitting returns them iff all but the last end in the normal state |
| `SplitTheorems.RoundTripFails` | internal/migrate/split_statements.go:63-193 | a split body whose statements, rejoined, split differently |
| `SplitTheorems.TagShape` | internal/migrate/split_statements.go:263-295 | a recognised tag has "$" at both ends and word characters between |
| `SplitTheorems.CodeClosesIff` | internal/migrate/split_statements.go:300-305 | the machine closes at a closing tag or at the overlap with the opening tag, nowhere else |
| `SplitTheorems.DollarRun` | internal/migrate/split_statements.go:104-111 | inside a quote nothing splits until the first close |
| `SplitTheorems.DollarStaysOpen` | internal/migrate/split_statements.go:104-111 | without a close the whole text is collected and the quote stays open |
| `SplitTheorems.DollarCloseExactIff` | internal/migrate/split_statements.go:259-305 | the machine closes where the first closing tag ends, and stays open without one, iff the quoted text does not start with the tag less its first "$" |
| `SplitTheorems.OverlappingClose` | internal/migrate/split_statements.go:300-305 | a third "$" closes the quote just opened by "$$" |
| `KeywordRule.TurnIff` | internal/migrate/split_statements.go:203-249 | a turn is the documented one iff it does not take a keyword after "(" or one that runs on into a word |
| `KeywordRule.CleanBodiesFollowTheRule` | internal/migrate/split_statements.go:203-249 | a body in which no BEGIN or END at the start or after a space, "(" or ";" follows the "(" or runs on into a word is read as documented |
| `KeywordRule.RunIff` | internal/migrate/split_statements.go:203-249 | for every body the machine passes through the documented states iff no turn of its run misreads a keyword |
| `KeywordRule.CleanNeverMisreads` | internal/migrate/split_statements.go:203-249 | no turn over a body free of such places does |
| `KeywordRule.BeginIgnoresWhatFollows` | internal/migrate/split_statements.go:165-172 | "begin" opens a block whatever follows |
| `KeywordRule.IdentifierOpensBlock` | internal/migrate/split_statements.go:113-131 | after an identifier starting with "begin" nothing splits up to the first END |
| `KeywordRule.BeginIdentifierSwallows` | internal/migrate/split_statements.go:203-249 | on "beginx;" the documented machine splits and the splitter does not |
| `KeywordRule.EndIgnoresWhatFollows` | internal/migrate/split_statements.go:124-130 | inside a block "end" closes it whatever follows |
| `KeywordRule.EndIdentifierSplits` | internal/migrate/split_statements.go:203-249 | inside a block an identifier starting with "end" lets the next ";" split |
| `KeywordRule.DocEndReadsOn` | internal/migrate/split_statements.go:203-206 | the documented machine does not split there |
| `KeywordRule.ParenthesisSwallows` | internal/migrate/split_statements.go:217-223 | on "(begin;" the documented machine splits and the splitter does not |
| `Migrate.CurrentSchemaVersion` | internal/migrate/migrate.go:127-135 | the greatest version in the list, 0 if none is positive |
| `Migrate.Database.ApplyOne` | internal/migrate/migrate.go:204-235 | one migration is all or nothing: statements and bookkeeping row commit together or the store is unchanged |
| `Migrate.Database.Migrate` | internal/migrate/migrate.go:63-99 | the loop computes the specified outcome: store, applied set and error |
| `Migrate.RunShape` | internal/migrate/migrate.go:63-99 | a failure leaves exactly the earlier migrations applied |
| `Migrate.ApplyReplays` | internal/migrate/migrate.go:204-235 | one migration runs every statement of its body in order, each answer taken over or tolerated, and stores what the last one leaves; or it stops at the first fatal one and changes nothing |
| `Migrate.RunReplays` | internal/migrate/migrate.go:204-235 | a run without an error takes the database through exactly the statements of the pending migrations |
| `Migrate.RunNotesScript` | internal/migrate/migrate.go:204-235 | a database that notes down its statements holds those of the pending migrations, none left out and none twice |
| `Migrate.RerunIsStable` | internal/migrate/migrate.go:63-99 | a repeated run is a no-op or the same failure |
| `Migrate.StagedUpgrade` | internal/migrate/migrate.go:63-99 | upgrading in two releases equals upgrading at once |
| `Migrate.VersionAfterSuccess` | internal/migrate/migrate.go:101-135 | after a successful run on a database this binary knows, stored and supported versions agree |
| `Migrate.StepOnTrack` | internal/migrate/migrate.go:63-99 | every step, boot or crash keeps the outcome still to come |
| `Migrate.CrashRecovery` | internal/migrate/migrate.go:56-99 | after any crashes and restarts, a run that finishes ends as one uninterrupted run does |
| `HashChain.HeadInjective` | internal/merkle/chain.go:97-112 | the head of a collision-free chain determines every item |
| `HashChain.PickedIsPrefix` | internal/merkle/chain.go:153-188 | rows picked from an honest chain form an honest chain only as a prefix |
| `HashChain.TermsAreCollisionFree` | internal/merkle/chain.go:97-112 | the assumption on the hash can be met |
| `Merkle.VerifyChain` | internal/merkle/chain.go:153-188 | OK iff the list is accepted, with head and counts; otherwise the first failing row, its cause and the counts |
| `Merkle.AcceptedIff` | internal/merkle/chain.go:153-188 | accepted lists are exactly rows without a root followed by an honestly built chain |
| `Merkle.SameHeadSameContents` | internal/merkle/chain.go:153-188 | two accepted lists with one head have the same chained contents |
| `Merkle.FailureIsFirst` | internal/merkle/chain.go:148-150 | nothing longer than the reported position passes |
| `Merkle.TamperReported` | internal/merkle/chain.go:148-150 | changing one chained row's content is reported as that row's id with its mismatch and the counts before it |
| `Merkle.DocumentedSkipsIff` | internal/merkle/chain.go:140-143 | only leading rows without a root are counted as skipped iff no later one follows a chain that passes up to it |
| `Merkle.GapInTheMiddle` | internal/merkle/chain.go:140-143 | a chained row, one without a root and any third: the second is reported as the gap and counted as skipped |
| `Merkle.PickedIffPrefix` | internal/merkle/chain.go:153-188 | dropping, repeating or reordering rows of an accepted chain is accepted iff a prefix remains |
| `Merkle.SoundSchemeExists` | internal/merkle/chain.go:55-59 | the assumptions on roots can be met |
| `Audit.NewKeyring` | internal/audit/hmac.go:62-75 | succeeds iff there are pairs and all are good, with exactly the given ids, each with its last secret; an error blames the first unusable pair |
| `Audit.ReverseInPlace` | internal/audit/export.go:145-149 | the slice is reversed |
| `Audit.ExportJSONL` | internal/audit/export.go:81-142 | unknown key or empty secret fail with no row written; otherwise the stamped chain over the reversed listing and its row count |
| `Audit.WriteChain` | internal/audit/export.go:103-127 | each row is stamped with the link of the row before it, from the empty link |
| `Audit.VerifyJSONL` | internal/audit/verify.go:86-160 | OK iff every line parses and every row continues the chain; otherwise the status, id and count at the first bad line |
| `Audit.ExportVerifiesIff` | internal/audit/export.go:81-128 | a non-empty export verifies, its rows and columns intact, under exactly the rings whose secret for its id is its own up to zero padding |
| `Audit.ZeroByteIsPadding` | internal/audit/hmac.go:136-149 | a secret shorter than a block and the same with a zero byte behind it are one key |
| `Audit.PaddedSecretVerifies` | internal/audit/hmac.go:157-173 | an export under one of them verifies under the other |
| `Audit.AcceptedIsRestamped` | internal/audit/hmac.go:119-173 | an accepted stream is exactly the chain rebuilt from its own stripped events from the empty link |
| `Audit.PrefixAccepted` | internal/audit/verify.go:86-160 | acceptance is closed under non-empty prefixes |
| `Audit.StopRejects` | internal/audit/verify.go:91-94 | a stream with a first bad line is not accepted |
| `Audit.StopStatus` | internal/audit/verify.go:109-144 | a row is malformed iff it is incomplete, of unknown key iff complete with a key id outside the ring, broken otherwise |
| `Audit.ForeignKeyReported` | internal/audit/verify.go:109-144 | an export under an id outside the ring stops at its first row as an unknown key |
| `Audit.TamperReported` | internal/audit/verify.go:8-14 | changing one row's signed columns, the canary flag included, stops verification at that row |
| `Audit.CanaryClearedIff` | internal/audit/hmac.go:11-16 | the link is the documented one iff the canary flag is clear |
| `Audit.FallbackIff` | internal/audit/hmac.go:22-26 | the check agrees with the documented fallback on a row iff the row is incomplete, out of place, or signed by no key but the declared one |
| `Audit.MislabelledRowRejected` | internal/audit/hmac.go:52-55 | a row signed by a ring key under another label is rejected where the documented check accepts |
| `Audit.SoundMacExists` | internal/audit/hmac.go:136-149 | the assumptions on the digest can be met |
| `Audit.PickedIffPrefix` | internal/audit/verify.go:8-14 | dropping, repeating or reordering rows is accepted iff a non-empty prefix remains |
| `Audit.KeyIdIsALabel` | internal/audit/hmac.go:123-129 | acceptance is the same under any other key id that has the same secret |
| `LlmHealth.HealthRegistry.constructor` | internal/llm/health.go:101-118 | no provider is tracked at first; missing allowances and a cooldown that is not positive get the defaults |
| `LlmHealth.HealthRegistry.Account` | internal/llm/health.go:225-229 | the class counter rises by one; above its allowance the cooldown restarts from now |
| `LlmHealth.HealthRegistry.RecordFailure` | internal/llm/health.go:216-230 | one failure event of the trace model, ignored transient classes included |
| `LlmHealth.HealthRegistry.RecordSuccess` | internal/llm/health.go:233-241 | one success event: counters and cooldown reset |
| `LlmHealth.HealthRegistry.RecordProbe` | internal/llm/health.go:187-210 | one probe event: healthy or unclassifiable resets, anything else is charged |
| `LlmHealth.HealthRegistry.InCooldown` | internal/llm/health.go:244-252 | true iff now is strictly before the end of the cooldown |
| `LlmHealth.HealthRegistry.FilterCandidates` | internal/llm/health.go:257-272 | the routable ids in order, or all of them when none is |
| `LlmHealth.HealthyMembers` | internal/llm/health.go:262-267 | an id is kept iff it was given and is routable |
| `LlmHealth.FailurePenalises` | internal/llm/health.go:216-230 | a failure raises the counter of its class by one, "server" without a class, and starts a cooldown beyond the allowance; ignored transient classes change nothing |
| `LlmHealth.ProbeEffect` | internal/llm/health.go:187-210 | a probe that is valid or unknown clears the provider, any other counts as a failure; state and time are noted |
| `LlmHealth.CooldownKeepsOut` | internal/llm/health.go:216-272 | a failure beyond the allowance keeps the provider out of routing beside a healthy one for exactly the cooldown time |
| `LlmHealth.RunCoolsIff` | internal/llm/health.go:50-54 | n failures in a row put a fresh provider on cooldown iff more than the allowed number |
| `LlmHealth.DefaultRunCoolsIff` | internal/llm/health.go:41-47 | by default the first auth failure does, the second server error, the fourth rate limit or timeout |
| `LlmHealth.FilterFailsOpen` | internal/llm/health.go:254-272 | a non-empty list never becomes empty, and a provider is dropped only while another one is routable |
| `LlmHealth.RoutableIff` | internal/llm/health.go:244-272 | the two comparisons differ only at the instant the cooldown ends |
| `LlmHealth.CountersFromTrace` | internal/llm/health.go:174-241 | each class counter is the number of counted failures since the last reset |
| `LlmHealth.CooldownUnsetIff` | internal/llm/health.go:174-241 | no cooldown is set iff every counter is within its allowance |
| `LlmHealth.CooldownFromTrace` | internal/llm/health.go:174-241 | a set cooldown ends at the last over-allowance failure since the last reset plus the cooldown time |
| `LlmFailover.Catalog.SpecByID` | internal/llm/catalog.go:388-410 | the first catalog spec with the resolved id, none iff there is no such spec |
| `LlmFailover.AppendSpec` | internal/llm/failover.go:147-156 | a spec is added iff it exists, is keyed and its id is new; seen stays the set of added ids |
| `LlmFailover.OrderedCandidates` | internal/llm/failover.go:139-165 | the loops compute the specified candidate list |
| `LlmFailover.CandidateIff` | internal/llm/failover.go:137-165 | every keyed provider of the list is a candidate and no other is |
| `LlmFailover.CandidatesAreFirst` | internal/llm/failover.go:137-165 | candidates are keyed, have distinct ids and are the first listed spec of their id |
| `LlmFailover.CandidateOrder` | internal/llm/failover.go:137-165 | candidates keep list order |
| `LlmFailover.PinMovesToFront` | internal/llm/failover.go:143-160 | a known keyed pin comes first and the rest keep their order; any other pin changes nothing |
| `LlmFailover.Narrow` | internal/llm/failover.go:174-189 | the loops through the map by id pick the candidate of each kept id, in order |
| `LlmFailover.PickedIds` | internal/llm/failover.go:174-193 | going from candidates to ids and back loses nothing, because ids are distinct |
| `LlmFailover.FailoverClient.constructor` | internal/llm/failover.go:80-99 | no provider has answered yet |
| `LlmFailover.FailoverClient.SelectChain` | internal/llm/failover.go:168-193 | the chain is the routable candidates, or all when none is routable |
| `LlmFailover.FailoverClient.ReportFailure` | internal/llm/failover.go:202-224 | a failed attempt is charged with its class, a build failure as a server failure, a missing key to nobody |
| `LlmFailover.FailoverClient.TryInOrder` | internal/llm/failover.go:195-226 | the first spec that answers wins; registry, last provider and last error are those of the attempts made |
| `LlmFailover.FailoverClient.Judge` | internal/llm/failover.go:168-227 | the outcome, the registry and the last provider as functions of the state before the call |
| `LlmFailover.ReportStep` | internal/llm/failover.go:202-224 | a failed attempt adds exactly its one failure to what is reported |
| `LlmFailover.CallEffect` | internal/llm/failover.go:195-226 | each failed provider is charged once, the winner is reset once, providers after the winner are untouched |
| `LlmFailover.CallLeavesOthers` | internal/llm/failover.go:195-226 | providers outside the chain are untouched |
| `LlmFailover.CallPenalises` | internal/llm/failover.go:200-224 | each provider tried in vain is charged for its failed call's class, or as a server failure when no client could be built, and not at all when its key is gone |
| `LlmFailover.FirstAnswerWins` | internal/llm/failover.go:211-220 | the first provider that answers decides the outcome and is remembered |
| `LlmFailover.NoAnswerReports` | internal/llm/failover.go:195-226 | when nobody answers the outcome carries the number tried and the last error |
| `LlmFailover.AnsweredIff` | internal/llm/failover.go:168-227 | a call is answered iff some candidate answers that is routable, or none is routable; "no candidates" iff there are none |
| `JudgeParse.ScanCanonicalTokens` | internal/judgeparse/judgeparse.go:378-430 | the loops compute the specified verdict of the normalised reply |
| `JudgeParse.PickLatest` | internal/judgeparse/judgeparse.go:422-429 | the token loop keeps the greatest last position |
| `JudgeParse.LatestIsLast` | internal/judgeparse/judgeparse.go:369-377 | the verdict is that of an occurring token with no table token after it; empty means no token occurs |
| `JudgeParse.CompactKeeps` | internal/judgeparse/judgeparse.go:379-404 | through all normalisation stages the conclusion's text stays the end of the whole reply's, up to leading spaces and stars |
| `JudgeParse.FinalConclusionWins` | internal/judgeparse/judgeparse.go:369-377 | a verdict found in the final part is the verdict of the whole reply, whatever comes before |
| `JudgePhrases.PhraseDecides` | internal/judgeparse/judgeparse.go:369-430 | a reply that ends with a verdict phrase is answered that verdict, whatever comes before, in any case of letters, with any white space round the colon, back quotes and bold marks round key and value, and any text without a colon behind it |
| `JudgePhrases.CompactPhrase` | internal/judgeparse/judgeparse.go:379-404 | normalisation leaves key, colon and value of such a phrase |
| `JudgePhrases.TableIsComplete` | internal/judgeparse/judgeparse.go:406-421 | every key and value that state a verdict are in the table |
| `JudgePhrases.TableIsSound` | internal/judgeparse/judgeparse.go:406-421 | every entry of the table is a key and a value that state its verdict |
| `Economy.Dedup` | internal/economy/economy.go:75-103 | one item a key, in order of first occurrence |
| `Economy.InKeyOrder` | internal/economy/economy.go:98-102 | the output loop yields the best copy of each key in first-occurrence order |
| `Economy.Best` | internal/economy/economy.go:87-97 | the copy kept is the earliest most confident one |
| `Economy.DedupIdempotent` | internal/economy/economy.go:72-103 | removing duplicates twice is removing them once |
| `Economy.DistinctIsDeduped` | internal/economy/economy.go:72-103 | with no key repeated nothing changes |
| `Economy.DocumentedDuplicatesIff` | internal/economy/economy.go:72-85 | no two kept items share a URL or a title and source iff input items that share one of these share all three |
| `Economy.SameUrlKept` | internal/economy/economy.go:72-85 | two items with one URL and different titles both stay |
| `Economy.EveryItemRepresented` | internal/economy/economy.go:72-103 | every input item has a kept one with the same URL, title and source that is at least as confident, and only input items are kept |
| `Economy.FilterConfidence` | internal/economy/economy.go:111-122 | the items at or above a positive threshold, in order |
| `Economy.ThresholdMeaning` | internal/economy/economy.go:109-122 | an item is kept iff the threshold is not positive or the item reaches it |
| `Economy.DocumentedThresholdIff` | internal/economy/economy.go:109-114 | the documented reading of thresholds holds iff the threshold is not negative or there are no items |
| `Economy.CapTop` | internal/economy/economy.go:200-222 | the loops and the two stable sorts compute the specified list |
| `Economy.SortOrdered` | internal/economy/economy.go:208-210 | a stable sort orders by key, and by input order among equal keys |
| `Economy.SortedByRank` | internal/economy/economy.go:204-210 | the confidence sort puts each item at its rank by (confidence descending, position ascending) |
| `Economy.LeaderIsBest` | internal/economy/economy.go:224-231 | the index used for re-sorting is that of the best ranked item with the same id |
| `Economy.CapIff` | internal/economy/economy.go:198-222 | the cap returns the n best items in input order iff repeated ids do not disturb that order |
| `Economy.CapKeepsBest` | internal/economy/economy.go:198-222 | with distinct ids the cap keeps exactly the n best items in input order |
| `Economy.RepeatedIdReorders` | internal/economy/economy.go:215-231 | four given items, capped at three, come out in another order than they went in |
| `Economy.CapFilterCommute` | internal/economy/economy.go:57-65 | with distinct ids, filtering before the cap or after it gives the same items |
| `Resolver.EffectiveMaxBytes` | internal/artifact/resolver.go:170-178 | the cap is between one byte and 4 MiB, the requested one or the hard one below it, and the default without a request |
| `Resolver.CapWriter.constructor` | internal/artifact/resolver.go:319 | the buffer starts empty |
| `Resolver.CapWriter.Write` | internal/artifact/resolver.go:443-453 | all bytes are accepted, the first cap bytes of everything written are kept |
| `Resolver.ResolveStream` | internal/artifact/resolver.go:314-348 | whatever the chunking, the result is that of reading the source up to the limit |
| `Resolver.RangeServed` | internal/artifact/resolver.go:214-264 | a range with a positive end is refused or served exactly, within the cap, from a limited read as from the whole source |
| `Resolver.PrefixServed` | internal/artifact/resolver.go:256-300 | without a range the first cap bytes are served and cutting is reported |
| `Resolver.OpenRangeServedIff` | internal/artifact/resolver.go:235-264 | an open-ended range is served as from the whole source iff the source fits the limit or the range starts at its first two bytes or past its end |
| `Resolver.OpenRangeFallsShort` | internal/artifact/resolver.go:212-264 | a byte that exists and fits the cap is not served |
| `Resolver.OpenRangeDocumentedIff` | internal/artifact/resolver.go:212-264 | an open-ended range is served up to start plus cap: from a negative start iff the source is empty or ends by then, from any other iff the source fits the limit or the start is one of its first two bytes or past its end |
| `Resolver.NegativeStartServesMore` | internal/artifact/resolver.go:212-264 | from byte -1 of three under a cap of two, one byte more than start plus cap allows is served |
| `Resolver.InclusiveBoundsIff` | internal/artifact/resolver.go:66-68 | a range that fits is served with both bounds inclusive, cut to the cap, iff its end is past the source, before its start or a whole cap behind the start |
| `Resolver.EndIsExcluded` | internal/artifact/resolver.go:66-68 | bytes 0 to 1 of a three-byte source are served as byte 0 |
| `Resolver.NeverAboveCap` | internal/artifact/resolver.go:187-264 | results never exceed the cap; a negative end stops the program, nothing else does |

## Left out

- CachedProvider: the protocol is a state machine over values, one event per atomic step, not a class; the cache in it is the recency-ordered sequence that `LruCache.InMemoryLRU` is proved to implement, so the interleaving of machine-level memory accesses is not modelled.
- CachedProvider.SomeoneCanMove: inner calls return. An inner call that panics and is recovered further up would let go of the lock but leave its inflight entry, and the next caller for that key would wait while holding the lock.
- LruCache.InMemoryLRU: `container/list` is a sequence of element objects; its pointers, the invalidation events on eviction and the mutex itself are not modelled.
- Audit.VerifyJSONL: parsing a line is given as blank, garbage or a row; the 16 MiB line limit and reader errors are not modelled.
- Audit.NewKeyring: pairs arrive already split and hex-decoded; the textual form and the environment variable are not modelled.
- Merkle.ComputeRoot: the length and hex tests on a previous root are one abstract test; a JSON encoding failure is not modelled.
- Migrate.Database.Migrate: the engine is a deterministic function that changes, tolerates or fails; which error texts are tolerated, failures to begin or commit, aborted-transaction behaviour of Postgres, timestamps and migration events are not modelled.
- Migrate: bootstrapping of older databases, core tables and status listing are single lookups.
- VibeSpec.CheckTasks: the vibe case, both spellings of the task list, warnings about unusual external references, storage and saved todos.
- Delegation.Validate: whether a vibe case parses is an abstract predicate.
- LlmFailover.FailoverClient.Judge: each attempt's outcome, with its failure class already assigned, is a function of the spec during one call; cancellation of the context and the classifier are not modelled.
- LlmHealth: the background probe timer and the snapshot for status output.
- JudgeParse: JSON parsing of replies, the verdict header, word normalisation and the confidence floor around the token scan.
- Economy: word-boundary truncation, first-sentence compression and token estimates, which treat each item on its own.
- Economy.CapFilterCommute: stated for distinct ids, because with repeated ids the cap re-sorts only when it cuts.
- Resolver: reading files, running git, fetching URLs, the SHA-256 of the result and 64-bit overflow of range bounds.
- Unicode: text is ASCII; trimming and lower-casing of other characters are not modelled.
- Network clients, key stores, command-line tools, resource registration, embeddings and feature flags: input/output or single lookups.
