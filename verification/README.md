# Facter: verified models of its stateful and recursive algorithms

Facter collects facts about a system: native resolvers, external fact files and custom Ruby facts all feed one lazy
collection that users query. Most of the program asks the operating system for values. This project models the parts
that do not, and in which mistakes would be hard to see, and proves what they are for:

- **The fact collection** (`FactStore`, `LazyEager`, `ResolverRuns`, `Collection`). A demand-driven evaluator: asking
  for a fact removes the resolvers that cover it from three indexes and runs them, and they re-enter the collection. A
  resolver is a script of reads and writes whose names and values may depend on everything read so far. Proved: lazy
  answers equal eager ones, resolution terminates for every registry and runs each registration at most once, an
  added value stays.
- **Queries** (`Query`). The quote-aware scan of any dotted query is a left fold of lookups over its segments.
- **Structured custom facts** (`Chunks`, `DeepMerge`, `Aggregation`, `AggregateResolution`). A memoising evaluator
  with cycle detection agrees with the memo-free recursion on every table and raises exactly on reachable cycles; the
  default merge is an associative partial operation, and it is settled exactly when it fails and when it forgets the
  order of chunks.
- **Custom facts** (`RubyFacts`, `RubyFactObjects`). A second such evaluator that shares values with the collection:
  whatever facts read each other, what is returned is what the collection then holds.
- **Child output** (`Streams`, `ChildPipes`). Any chunking and any interleaving of two pipes delivers the lines of the
  whole streams, up to the first one a callback rejects.
- **Windows command lines** (`CommandLines`). Quoting against the Microsoft C runtime's rules for splitting a line.
- **JSON events** (`JsonEvents`, `JsonHandlers`). Two stack automata equal a recursive reading of every document.
- **The style checker** (`Brackets`, `Nesting`). Two bracket scans are inverse; saved stacks make a conditional count
  as its first branch.
- **Sizes and percentages** (`Units`) over exact rationals.

Where the program updates something in place, a class does so here (`FactCollection.Collection`,
`AggregateResolutions.Chunk` and `AggregateResolution`, `RubyFactObjects.Fact` and `Facter`, `Streams.LineReader`,
`ChildPipes.ChildPipe`, `JsonHandlers.EventHandler`, `Nesting.NestingState`), and every method is proved to compute
a function on the object's contents; the theorems are about those functions. `dafny verify dfyconfig.toml` checks
everything.

## Where the code and its documentation or intent part ways

- `lib/inc/facter/facts/collection.hpp:92` says that the last resolver added for a name wins. In general the first one
  taken does, because the others run inside its own reads and adds (`ResolverRuns.FirstTakenWins`). The last one added
  wins exactly when it is the one taken, or would give the same (`ResolverRuns.LastAddedWinsExactly`).
- Without trimming, the buffered newline character becomes part of a line. A callback gets the right lines exactly when
  the stream has no newline character or the callback stops within the first chunk that has one
  (`Streams.UntrimmedExactly`).
- The final strip of a command line takes carriage returns and form feeds off an unquoted last argument
  (`CommandLines.RoundTripExactly`).
- A member with an empty key is meant to be an error, but it is noticed exactly when its value is neither null nor a
  string (`JsonEvents.EmptyKeyNoticedExactly`); a string is taken for the key, so that documents are accepted that
  should not be (`JsonEvents.AcceptedExactly` beside `JsonEvents.KeyedDocumentReads`).
- Flushing a custom fact brings its resolutions back exactly when one of them has a weight or the collection holds
  nothing for it (`RubyFacts.FlushReturns`); so a fact set from the environment may lose its value by a flush
  (`RubyFacts.PinnedUntilFlush`).
- Redefining a chunk resets only its own cache. That is safe whatever the new definition is exactly when no other cached
  chunk requires it (`Chunks.RedefinitionIsSafe`).

## Model

| member | source | states |
|---|---|---|
| FactStore.Next | lib/src/facts/collection.cc:293-317 | a resolver that covers the name is found whenever one is registered |
| FactStore.Resolve | lib/src/facts/collection.cc:293-317 | terminates for every registry, cyclic reads included; afterwards no pending resolver covers the name, and no resolver has become pending |
| FactStore.RunResolver | lib/src/facts/collection.cc:311-315 | a resolver leaves the pending list before it runs and never comes back |
| FactStore.AddFact | lib/src/facts/collection.cc:82-117 | after an add no pending resolver covers the name |
| FactStore.ResolveAll | lib/src/facts/collection.cc:282-291 | terminates with nothing pending |
| FactStore.AddFactAssigns | lib/src/facts/collection.cc:82-117 | adding is resolving the name, then one map update: a store, or a removal for null |
| LazyEager.LazyEqualsEager | lib/src/facts/collection.cc:245-326 | with disjoint coverage, covered writes and acyclic reads, every answer of any sequence of gets, sizes, listings and queries is what all facts give once everything is resolved, and resolving the rest later gives the same facts |
| LazyEager.ResolvedAnswers | lib/src/facts/collection.cc:245-263 | with nothing pending: a get gives the stored value or null, a size counts the facts, a listing gives them, a query walks them |
| LazyEager.OrderIndependent | lib/src/facts/collection.cc:282-291 | under the same conditions the order of registration does not change the facts |
| LazyEager.CycleShowsOrder | lib/src/facts/collection.cc:293-317 | with two resolvers that read each other's fact, asking for one first changes the facts: acyclic reads are needed |
| LazyEager.ResolveSound | lib/src/facts/collection.cc:293-317 | the invariant of every state, nested runs included: a fact is untouched while its resolver is pending, and has its order-free meaning once it has run; facts of resolvers that are still running are not touched by others |
| LazyEager.ResolveAllSound | lib/src/facts/collection.cc:282-291 | after resolving everything each fact has its meaning |
| LazyEager.GetSound | lib/src/facts/collection.cc:319-326 | one get keeps the invariant and returns the meaning |
| ResolverRuns.ResolveAllRunsEach | lib/src/facts/collection.cc:282-291 | for any registry, resolving everything runs each pending resolver exactly once and nothing else |
| ResolverRuns.ServeAllRunsOnce | lib/src/facts/collection.cc:198-219 | over any sequence of operations, adds and removes included, exactly the resolvers no longer pending ran, each once |
| ResolverRuns.AddedValueStays | lib/src/facts/collection.cc:82-117 | an added value, or an added null, stays through any later operations until the next add or remove of that name, and through resolving everything |
| ResolverRuns.RemovedStays | lib/src/facts/collection.cc:221-230 | a removed fact stays removed in the same way: its resolvers ran before it was removed |
| ResolverRuns.FrontRunsFirst | lib/src/facts/collection.cc:285-289 | resolving everything starts with the registration at the front |
| ResolverRuns.ServeAllKeeps | lib/src/facts/collection.cc:293-326 | a fact that no pending resolver covers keeps its value through any operations that do not add or remove it |
| ResolverRuns.FirstTakenWins | lib/src/facts/collection.cc:293-317 | when several resolvers cover a name, its value is what the resolver taken first writes last under that name, whatever that depends on, null included |
| ResolverRuns.LastWriteHolds | lib/src/facts/collection.cc:82-117 | what a run of a resolver last writes under a name stands at its end, when pending resolvers keep to the names they cover |
| ResolverRuns.LastTakenExactly | lib/src/facts/collection.cc:295-317 | the last registration that covers a name is the one taken exactly when no earlier one covers it, or the earlier ones only match it while it is registered under it, or it comes first among them too |
| ResolverRuns.LastAddedWinsExactly | lib/inc/facter/facts/collection.hpp:90-95 | when every covering resolver has the last word in its own run, the last one added wins exactly when it is the one taken, or would give what the one taken gives |
| ResolverRuns.LastAddedDoesNotWin | lib/inc/facter/facts/collection.hpp:90-95 | an instance: of two resolvers for one name with fixed values the first added wins |
| FactCollection.NameIndexWithout | lib/src/facts/collection.cc:198-219 | erasing a resolver's entries name by name leaves the name index of the other registrations |
| FactCollection.PatternIndexWithout | lib/src/facts/collection.cc:217 | removing it from the pattern list leaves the pattern index of the others |
| FactCollection.FirstEntryIsFirstNamed | lib/src/facts/collection.cc:295-299 | the first entry of a name in the index is the first registration with that name |
| FactCollection.FirstMatchIsFirstMatched | lib/src/facts/collection.cc:305-312 | the first match in the pattern list is the first registration that matches |
| FactCollection.Collection.AddResolver | lib/src/facts/collection.cc:65-80 | the three indexes stay in step and the registration comes last |
| FactCollection.Collection.EraseName | lib/src/facts/collection.cc:206-214 | the iterator loop erases exactly the entries of that name and resolver |
| FactCollection.Collection.RemoveResolver | lib/src/facts/collection.cc:198-219 | the three indexes stay in step and every registration of the resolver is gone |
| FactCollection.Collection.Run | lib/src/facts/collection.cc:285-289 | removing, logging and running a resolver, with its re-entrant reads and writes, is the function of the store proved about above |
| FactCollection.Collection.ResolveFact | lib/src/facts/collection.cc:293-317 | the two loops, names first, then patterns, compute the resolution of the name |
| FactCollection.Collection.GetValue | lib/src/facts/collection.cc:319-326 | resolves, then looks up |
| FactCollection.Collection.AddFactValue | lib/src/facts/collection.cc:82-117 | the collection becomes the store after the add |
| FactCollection.Collection.RemoveFactValue | lib/src/facts/collection.cc:221-230 | the collection becomes the store after the remove |
| FactCollection.Collection.ResolveFacts | lib/src/facts/collection.cc:282-291 | the loop over the front of the list resolves everything |
| FactCollection.Collection.Size | lib/src/facts/collection.cc:245-249 | resolves everything and counts |
| FactCollection.Collection.LookupValue | lib/src/facts/collection.cc:360-403 | one step of a query: a top-level fact only when there is no value yet, else an entry or element |
| FactCollection.Collection.AskQuery | lib/src/facts/collection.cc:328-358 | the loop with its flag and growing segment computes the query's value and effect |
| Query.StoiReads | lib/src/facts/collection.cc:381-387 | an index is read from decimal text with leading space, a sign and any tail, within the range of an int |
| Query.ElementNamed | lib/src/facts/collection.cc:379-401 | an array element is named by its index; negative, too large and out-of-range ones name nothing |
| Query.QueryIsFold | lib/src/facts/collection.cc:328-358 | every query whatever is the left fold of lookup over its segments, unless a fact has the whole text for its name; of the segments only an empty last one is not looked up |
| Query.QueryWalks | lib/src/facts/collection.cc:328-403 | every query gives the fact named like the whole text, or else what is at the end of the path that its segments spell through nested maps and arrays, from the facts down; null when a key is missing, an index names no element or a scalar is met early; and only these two facts are resolved for it |
| Query.JoinedQueryWalks | lib/src/facts/collection.cc:328-403 | a query joined from plain or quoted segments gives what is at the end of the path they spell |
| Query.SegmentsJoined | lib/src/facts/collection.cc:336-346 | the segments of a text joined from plain or quoted segments are those, empty ones included |
| Query.UnquotedSegments | lib/src/facts/collection.cc:336-346 | without quotes the segments are the pieces between dots |
| Query.QueryFolds | lib/src/facts/collection.cc:328-358 | a query joined from plain or quoted segments is the left fold of lookup over them |
| Query.MissEndsFold | lib/src/facts/collection.cc:348-350 | once a prefix of the path misses, the query misses: it never starts again at the top level |
| Query.NormalizedIsNormal | exe/facter.cc:217-223 | a normalised query has no dot or space at its ends and no two dots in a row |
| Query.NormalizedTwice | exe/facter.cc:217-223 | normalising is idempotent |
| Query.NormalizedKeeps | exe/facter.cc:217-223 | normalising takes dots and spaces off both ends, and of what is left keeps exactly the non-empty pieces between dots, in order |
| Query.NormalizedQueryFolds | lib/src/facts/collection.cc:328-358 | a normalised unquoted query has only non-empty segments and is the fold of lookup over them |
| Query.QueriesAre | exe/facter.cc:213-232 | the queries are exactly the non-empty normal forms of the arguments |
| Query.NormalizeQueries | exe/facter.cc:213-232 | the loop that trims, erases and skips computes that set |
| Query.EraseDuplicateDots | exe/facter.cc:220-223 | erasing after unique keeps one dot of each run |
| DeepMerge.NilIsIdentity | lib/src/ruby/aggregate_resolution.cc:222-225 | nil is the identity of the merge on both sides |
| DeepMerge.HashMerge | lib/src/ruby/aggregate_resolution.cc:203-219 | two hashes merge to a hash exactly when it holds at every key the merge of what they hold there |
| DeepMerge.MergeAtPath | lib/src/ruby/aggregate_resolution.cc:203-242 | at every path of keys the merge holds the merge of what the two sides hold there |
| DeepMerge.MergeFailsExactly | lib/src/ruby/aggregate_resolution.cc:228-239 | two values cannot be merged exactly when at some path both hold something, neither two arrays nor two hashes |
| DeepMerge.FoldHolds | lib/src/ruby/aggregate_resolution.cc:51-61 | what merged chunks hold at any path: the concatenation of their arrays in the order of the chunks, a hash of hashes, or what the only chunk with something there has |
| DeepMerge.Associative | lib/src/ruby/aggregate_resolution.cc:214-242 | the merge is associative, failure included |
| DeepMerge.CommutesExactly | lib/src/ruby/aggregate_resolution.cc:214-242 | two mergeable values merge alike in both orders exactly when their shared arrays concatenate alike in both orders |
| DeepMerge.FoldConcat | lib/src/ruby/aggregate_resolution.cc:51-61 | chunks may be merged in any grouping |
| DeepMerge.FoldSucceedsExactly | lib/src/ruby/aggregate_resolution.cc:51-61 | merging all chunks succeeds exactly when every two of them can be merged |
| DeepMerge.SucceedsInAnyOrder | lib/src/ruby/aggregate_resolution.cc:51-61 | chunks that can be merged in one order can be merged in every order |
| DeepMerge.OrderIndependent | lib/src/ruby/aggregate_resolution.cc:51-61 | when the arrays of every two chunks concatenate alike in both orders, every order of the chunks gives the same value or the same failure |
| DeepMerge.OrderIndependentExactly | lib/src/ruby/aggregate_resolution.cc:51-61 | every order gives the same outcome exactly when no order can be merged, or the arrays of every two chunks concatenate alike in both orders |
| DeepMerge.ApartOrderIndependent | lib/src/ruby/aggregate_resolution.cc:51-61 | in particular when no two chunks put arrays at one path |
| DeepMerge.OrderShows | lib/src/ruby/aggregate_resolution.cc:220-221 | two different one-element arrays at one path show the order |
| Chunks.EvalChunk | lib/src/ruby/chunk.cc:33-95 | terminates on every table; the table and the marks of unfinished chunks are as before |
| Chunks.EvalChunkIsPlain | lib/src/ruby/chunk.cc:33-95 | inside any evaluation with right caches, the outcome is that of the memo-free recursion and the caches stay right |
| Chunks.PathIrrelevant | lib/src/ruby/chunk.cc:42-44 | a value does not depend on the evaluation it was found in, which is why it may be cached |
| Chunks.OutermostEvaluation | lib/src/ruby/chunk.cc:33-95 | from outside, on any table, with blocks that may fail: the outcome is the memo-free one, no chunk is left resolving, every cache is right, each cached chunk's block completed once and no other block completed |
| Chunks.CachesAreBlockValues | lib/src/ruby/chunk.cc:50-89 | a cached value is the block applied to the cached values of the dependencies, nil for unknown ones |
| Chunks.PlainEquation | lib/src/ruby/chunk.cc:54-76 | a value is the block applied to the dependencies' own values |
| Chunks.RaisesIffCycle | lib/src/ruby/chunk.cc:37-40 | when blocks do not fail, evaluation raises exactly when following dependencies meets some chunk twice, and then it raises the cycle error |
| Chunks.RedefinitionIsSafe | lib/src/ruby/aggregate_resolution.cc:126-131 | a chunk can be redefined in any way with every remaining cache still equal to the memo-free value exactly when no other cached chunk requires it |
| Chunks.DefineUnrequired | lib/src/ruby/aggregate_resolution.cc:126-131 | when no other cached chunk requires it, redefining a chunk keeps the whole invariant of the evaluator |
| Aggregation.MergeChunksIsPlain | lib/src/ruby/aggregate_resolution.cc:51-61 | the default loop computes the memo-free merge, failures in order, and leaves the caches right |
| Aggregation.AggregateIsFold | lib/src/ruby/aggregate_resolution.cc:51-61 | when every chunk has a value the aggregate is the fold of the merge |
| Aggregation.AggregateIgnoresOrder | lib/src/ruby/aggregate_resolution.cc:51-61 | when the arrays of every two chunks concatenate alike in both orders, the order of the chunk table does not show |
| Aggregation.CollectIsPlain | lib/src/ruby/aggregate_resolution.cc:38-48 | the aggregate block gets each chunk's memo-free value under its name |
| Aggregation.FirstFailureRaises | lib/src/ruby/aggregate_resolution.cc:38-48 | the first chunk in table order without a value is what the aggregate raises |
| Aggregation.FirstFailureEndsMerge | lib/src/ruby/aggregate_resolution.cc:51-61 | by default the first chunk without a value is what the aggregate raises, unless the chunks before it cannot be merged |
| Aggregation.BlockGetsValues | lib/src/ruby/aggregate_resolution.cc:38-48 | with an aggregate block the value is the block's answer to the hash of exactly the chunks' values by name |
| Aggregation.OptionsExactly | lib/src/ruby/aggregate_resolution.cc:99-124 | options are accepted exactly when each is a require option for a symbol or an array of symbols; the last one counts |
| Aggregation.RequirementReadsBack | lib/src/ruby/aggregate_resolution.cc:107-118 | what is required is what the block is passed: the one symbol, or those of the array in its order, or nothing |
| Aggregation.RequirementExactly | lib/src/ruby/aggregate_resolution.cc:108-117 | a requirement is a symbol or an array of symbols; anything else is a type error |
| Aggregation.FirstFaultDecides | lib/src/ruby/aggregate_resolution.cc:102-123 | the first option at fault decides between a type and an argument error |
| Aggregation.DefinedExactly | lib/src/ruby/aggregate_resolution.cc:83-132 | a chunk is defined exactly when given a block, a symbol and acceptable options; otherwise nothing changes |
| AggregateResolutions.InsertedIncreases | lib/src/ruby/aggregate_resolution.cc:128 | the chunk table stays in key order |
| AggregateResolutions.Chunk.SetDependencies | lib/src/ruby/chunk.cc:102-108 | new requirements drop the cached value |
| AggregateResolutions.Chunk.SetBlock | lib/src/ruby/chunk.cc:115-121 | a new block drops the cached value |
| AggregateResolutions.Chunk.Value | lib/src/ruby/chunk.cc:33-95 | the method with its flags computes the evaluator proved about above, on the whole table |
| AggregateResolutions.AggregateResolution.FindChunk | lib/src/ruby/aggregate_resolution.cc:64-81 | nil for an unknown name, else the chunk's value |
| AggregateResolutions.AggregateResolution.FindChunks | lib/src/ruby/chunk.cc:57-72 | the values of the dependencies in order, up to the first that raises |
| AggregateResolutions.AggregateResolution.Value | lib/src/ruby/aggregate_resolution.cc:34-62 | the value of the resolution, by block or by default |
| AggregateResolutions.AggregateResolution.CollectValues | lib/src/ruby/aggregate_resolution.cc:40-48 | the loop that builds the hash |
| AggregateResolutions.AggregateResolution.MergeValues | lib/src/ruby/aggregate_resolution.cc:51-61 | the loop that merges |
| AggregateResolutions.AggregateResolution.DefineChunk | lib/src/ruby/aggregate_resolution.cc:83-132 | nothing changes unless every check passes; then the chunk is created or reset |
| AggregateResolutions.AggregateResolution.ReadOptions | lib/src/ruby/aggregate_resolution.cc:102-123 | the loop over the options computes the requirement or the first fault |
| RubyFacts.FactValue | lib/src/ruby/fact.cc:56-131 | terminates on every graph of facts; facts in the middle of resolving, and which those are, are as before |
| RubyFacts.FactValueAgrees | lib/src/ruby/fact.cc:56-131 | raises only for a fact that is resolving; otherwise returns what the collection then holds, nil for nothing, and every resolved fact keeps agreeing with the collection |
| RubyFacts.ReadFromOutside | lib/src/ruby/module.cc:300-310 | read from outside, a fact never raises and leaves nothing resolving |
| RubyFacts.RunAgrees | lib/src/ruby/fact.cc:56-131 | the same over any run of reads, facts set from the environment, and flushes |
| RubyFacts.PickIsFirst | lib/src/ruby/fact.cc:95-108 | the value picked is that of the first resolution that is neither unsuitable nor nil |
| RubyFacts.PickExactly | lib/src/ruby/fact.cc:93-122 | the first resolution that is neither unsuitable nor nil decides the search, with its value or its exception; without one it ends with nil |
| RubyFacts.FactValueIs | lib/src/ruby/fact.cc:56-131 | where any value comes from: the cache, the collection when no resolution weighs anything, what an earlier look at the collection left, or the search, whose exception makes it nil |
| RubyFacts.FactKeeps | lib/src/ruby/fact.cc:56-131 | what the fact keeps: the value returned, the sorted resolutions, and that it is resolved unless the value is only the collection's |
| RubyFacts.UnknownFact | lib/src/ruby/module.cc:807-865 | a fact is created exactly for a name that the collection has a value for |
| RubyFacts.HeavierFirst | lib/src/ruby/resolution.cc:34-40 | in the order of trial greater weights come first, the number of confines being the weight where none is given |
| RubyFacts.ValueComesFrom | lib/src/ruby/fact.cc:72-113 | with nothing cached, a value is the collection's exactly when all weights are 0 or there are no resolutions, and the collection has one; else a suitable resolution's, every one of greater weight having been tried and found unsuitable or nil |
| RubyFacts.ConfineSays | lib/src/ruby/confine.cc:29-72 | a confine on a fact says what its test says of the value the collection then holds, and no when it holds none; a read that closes a cycle fails; a confine with only a block says what that says |
| RubyFacts.SuitableExactly | lib/src/ruby/resolution.cc:58-87 | a resolution is suitable exactly when each of its confines says yes of the state left by those before it |
| RubyFacts.FirstConfineDecides | lib/src/ruby/resolution.cc:70-75 | the first confine that does not say yes decides: no, or its failure |
| RubyFacts.ReadFactsExactly | lib/src/ruby/module.cc:300-310 | facts read in a row give what the collection holds for each once it is read; they fail exactly when one is being resolved |
| RubyFacts.ValuedExactly | lib/src/ruby/simple_resolution.cc:44-83 | a resolution has a value exactly when it is suitable and the first it has of a value, a block and a command gives one that is not nil: a block of what its reads give, a command as its output unless it fails |
| RubyFacts.FailedExactly | lib/src/ruby/resolution.cc:58-87 | a resolution fails exactly when the first confine that does not hold fails, or it is suitable, has no value of its own, and its reads or its block raise |
| RubyFacts.FlushReturns | lib/src/ruby/fact.cc:268-280 | for every fact, resolved or not: after a flush its value is what the collection holds for it when that is something and all its resolutions weigh 0, and otherwise what its resolutions now give |
| RubyFacts.FlushedFact | lib/src/ruby/fact.cc:268-280 | a resolved fact keeps its value through a flush when all its resolutions weigh 0, and else gets it from them again |
| RubyFacts.ByWeightSorts | lib/src/ruby/fact.cc:72-77 | there is a sort as the theorems assume it: insertion by weight |
| RubyFacts.PinnedUntilFlush | lib/src/ruby/module.cc:325-341 | a value set from the environment is returned whatever the resolutions are; after a flush exactly while all weigh 0 |
| RubyFactObjects.Fact.Value | lib/src/ruby/fact.cc:56-131 | the method with its flags computes the evaluator proved about above, on all facts and the collection |
| RubyFactObjects.Fact.Begin | lib/src/ruby/fact.cc:72-79 | sorts in place and marks the fact |
| RubyFactObjects.Fact.Settle | lib/src/ruby/fact.cc:81-130 | what follows: the collection's value, a cached one, or the search |
| RubyFactObjects.Fact.Search | lib/src/ruby/fact.cc:93-122 | the search with its rescue: the value picked, or nil after an exception, and resolved either way |
| RubyFactObjects.Fact.SetValue | lib/src/ruby/fact.cc:133-137 | sets the value and the flag, and nothing else |
| RubyFactObjects.Fact.Leave | lib/src/ruby/fact.cc:125-130 | adds to the collection, where nil removes, unless the value came from there; clears the mark |
| RubyFactObjects.Fact.Flush | lib/src/ruby/fact.cc:268-280 | drops the cached value |
| RubyFactObjects.Facter.Read | lib/src/ruby/module.cc:807-865 | a fact by name, created when only the collection knows it |
| RubyFactObjects.Facter.FlushAll | lib/src/ruby/module.cc:494-503 | every fact is reset, the collection is not |
| RubyFactObjects.Facter.Honor | lib/src/ruby/module.cc:325-341 | a fact is created if need be and set to the collection's value |
| RubyFactObjects.Facter.AnswerConfine | lib/src/ruby/confine.cc:29-72 | a confine's answer: a missing or nil fact says no |
| RubyFactObjects.Facter.IsSuitable | lib/src/ruby/resolution.cc:58-87 | the loop over the confines, ended by the first that fails or raises |
| RubyFactObjects.Facter.ValueOf | lib/src/ruby/simple_resolution.cc:44-83 | a resolution's value, its block with its reads, or its command, in this order |
| RubyFactObjects.Facter.Pick | lib/src/ruby/fact.cc:98-108 | the loop over the sorted resolutions |
| Streams.ChunkIsRight | lib/src/execution/execution.cc:249-309 | one chunk, with trimming: delivering everything is delivering what the chunk delivers and then what is buffered and follows; a rejection is final |
| Streams.SeparatesExactly | lib/src/execution/execution.cc:263-274 | lines are separated by line feeds and carriage returns and nothing else |
| Streams.LinesOfOne | lib/src/execution/execution.cc:276-287 | a text without these is one line, trimmed if asked, unless nothing is left of it |
| Streams.ProcessStands | lib/src/execution/execution.cc:249-309 | after any text, however cut, the completed lines are delivered up to the first rejected one, and the text from its last newline character on is buffered |
| Streams.AnyChunkingDelivers | lib/src/execution/execution.cc:249-364 | with trimming, any chunking delivers the whole stream's lines, trimmed, without empty ones, up to and including the first rejected; then the flush calls no more |
| Streams.DeliversPrefix | lib/src/execution/execution.cc:295-303 | what is delivered is a prefix of the lines, all accepted but possibly the last, and all lines if none was rejected |
| Streams.NoCallbackBuffers | lib/src/execution/execution.cc:256-260 | without a callback the whole output is returned, trimmed if asked |
| Streams.UntrimmedExactly | lib/src/execution/execution.cc:249-309 | without trimming, for every callback and every chunking: the callback gets the lines of the stream up to the first it rejects exactly when the stream holds no newline character, or it rejects one of the lines that the first chunk with a newline character completes |
| Streams.UntrimmedDelivers | lib/src/execution/execution.cc:249-309 | without trimming, a callback that accepts everything gets the lines exactly when the stream holds no newline character |
| Streams.LineReader.Process | lib/src/execution/execution.cc:249-309 | the method on its buffer takes the step proved about above |
| Text.TokensExactly | lib/src/execution/execution.cc:271-274 | tokens are the pieces between separators without the empty ones in between |
| Text.TrimmedIs | lib/src/execution/execution.cc:280-282 | trimming takes off exactly the white space around a text |
| Streams.LineReader.FeedTokens | lib/src/execution/execution.cc:276-304 | its loop over the lines of a chunk |
| Streams.LineReader.Finish | lib/src/execution/execution.cc:338-362 | the final trim and callback |
| ChildPipes.RoundsAreRead | lib/src/execution/posix/execution.cc:103-177 | for every sequence of what select and read answer: in which round and how reading ends, and which text each pipe has given by then, from the rounds alone, each pipe from its own reads up to its end |
| ChildPipes.PipesAreRight | lib/src/execution/posix/execution.cc:103-177 | when reading ends without an exception, each callback has the lines of the text that its own pipe gave in the rounds read, up to its first rejection, and a pipe without callback its trimmed text |
| ChildPipes.PipesDeliver | lib/src/execution/posix/execution.cc:103-177 | when both pipes are read to their end, these are the texts of all rounds, for every interleaving |
| ChildPipes.AcceptedPipes | lib/src/execution/posix/execution.cc:103-177 | callbacks that accept every line get all lines of both streams |
| ChildPipes.ReadFollows | lib/src/execution/posix/execution.cc:145-172 | one read of one pipe: the invariant that ties the pipe, its buffer and its callback to the reads so far, and exactly when it ends the reading |
| ChildPipes.ChildPipe.ReadReady | lib/src/execution/posix/execution.cc:145-172 | one ready pipe: interrupted, failed, closed, or a chunk for its splitter |
| ChildPipes.ReadChild | lib/src/execution/posix/execution.cc:103-177 | the loop over the rounds computes the run proved about above |
| CommandLines.CommandLineParses | lib/src/execution/windows/execution.cc:154-196 | what the Microsoft C runtime reads from the line, for every list of arguments |
| CommandLines.BackslashesBeforeQuote | lib/src/execution/windows/execution.cc:153-189 | the runtime's rule: in quotes, 2n backslashes and a quote are n and the end, 2n + 1 are n and a quote |
| CommandLines.DoubledQuote | lib/src/execution/windows/execution.cc:153-189 | the runtime's rule: two quotes in quotes are one |
| CommandLines.PlainArguments | lib/src/execution/windows/execution.cc:153-163 | the runtime's rule: elsewhere backslashes are backslashes, and space ends an argument |
| CommandLines.PlainExactly | lib/src/execution/windows/execution.cc:162-163 | an argument goes unquoted exactly when it holds no space, tab, line feed, vertical tab or quote |
| CommandLines.RoundTripExactly | lib/src/execution/windows/execution.cc:154-196 | the runtime reads back the non-empty arguments exactly when the last of them does not both go unquoted and end in a carriage return or form feed |
| CommandLines.RoundTrip | lib/src/execution/windows/execution.cc:154-196 | in particular when no argument holds one of those |
| CommandLines.ParseWritten | lib/src/execution/windows/execution.cc:162-189 | one argument, plain or quoted, is read back before anything that ends it, for all patterns of backslashes and quotes |
| CommandLines.ArgvToCommandLine | lib/src/execution/windows/execution.cc:154-196 | the outer loop and the final strip compute the line proved about above |
| CommandLines.Quote | lib/src/execution/windows/execution.cc:165-188 | the inner loops, counting backslashes, compute the quoted argument |
| JsonEvents.HandlerTakes | lib/src/facts/external/json_resolver.cc:30-163 | for both handlers and every document whatever: feeding its events gives its recursive reading, in which any string in an object is a key when none is waiting |
| JsonEvents.HandlerReads | lib/src/facts/external/json_resolver.cc:30-163 | for both handlers: a document in which no empty key has a string for its value gives the reading that is meant, with empty stack and key, or the exception that is due |
| JsonEvents.KeyedDocumentReads | lib/src/facts/resolvers/gce_resolver.cc:41-198 | a document should be accepted exactly when it is an object in which every member that has a value has a key; and then it is, and is read as it is meant |
| JsonEvents.DocumentReadsBack | lib/src/facts/external/json_resolver.cc:30-163 | round trip: a document that writes a map of nested values, fed event by event, adds exactly these values, for both handlers |
| JsonEvents.ReadsBack | lib/src/facts/external/json_resolver.cc:30-163 | a value of any kind and depth is read back from what writes it |
| JsonEvents.NullsSayNothing | lib/src/facts/external/json_resolver.cc:30-36 | elements and members that are null can be left out at any depth |
| JsonEvents.AcceptedExactly | lib/src/facts/external/json_resolver.cc:30-163 | for both handlers: a document ends without an exception exactly when it is an object in which, strings being keys and values by turns, every other value finds a key |
| JsonEvents.EmptyKeyNoticedExactly | lib/src/facts/external/json_resolver.cc:68-78 | wherever a key is due, an empty one is noticed exactly when its value is neither null nor a string |
| JsonEvents.EmptyKeyMisread | lib/src/facts/external/json_resolver.cc:68-78 | an instance: an object with an empty key before a string should be rejected, is accepted, and adds nothing |
| JsonEvents.FeedValue | lib/src/facts/external/json_resolver.cc:80-156 | wherever a value is due, the events of any value deliver its reading there and leave the containers around it alone |
| JsonEvents.FirstMemberWins | lib/src/facts/map_value.cc:29-37 | in a nested map, and in the root map of metadata, the first value under a key counts, nulls not counting |
| JsonEvents.LastFactWins | lib/src/facts/external/json_resolver.cc:131-139 | among top-level names that differ in case only, the last value counts |
| JsonEvents.LastNameKept | lib/src/facts/resolvers/gce_resolver.cc:107-114 | a qualified name is cut down to what follows its last slash |
| JsonEvents.QualifiedNames | lib/src/facts/resolvers/gce_resolver.cc:107-114 | which four values are cut down to what follows their last slash, and that others are left alone |
| JsonEvents.WrappedIs | lib/src/facts/external/json_resolver.cc:43-61 | integers come out as the ones of 64 signed bits that differ by a multiple of 2^64 |
| JsonEvents.CTextIs | lib/src/facts/external/json_resolver.cc:68-78 | strings end at the first NUL |
| JsonEvents.LowerIs | lib/src/facts/external/json_resolver.cc:135 | names are lowered letter by letter |
| JsonEvents.SshKeysRead | lib/src/facts/resolvers/gce_resolver.cc:88-106 | a list of keys is read back from its lines, with any space around them |
| JsonHandlers.EventHandler.OnNull | lib/src/facts/external/json_resolver.cc:30-36 | drops the key |
| JsonHandlers.EventHandler.OnBool | lib/src/facts/external/json_resolver.cc:38-41 | adds a boolean |
| JsonHandlers.EventHandler.OnInteger | lib/src/facts/external/json_resolver.cc:43-61 | adds an integer, cast to 64 signed bits |
| JsonHandlers.EventHandler.OnDouble | lib/src/facts/external/json_resolver.cc:63-66 | adds a number |
| JsonHandlers.EventHandler.OnString | lib/src/facts/external/json_resolver.cc:68-78 | sets the key or adds a string |
| JsonHandlers.EventHandler.OnStartObject | lib/src/facts/external/json_resolver.cc:80-89 | the first object is the document, later ones are pushed with their key |
| JsonHandlers.EventHandler.OnEndObject | lib/src/facts/external/json_resolver.cc:91-105 | pops, restores the key and adds; nothing at the end of the document |
| JsonHandlers.EventHandler.OnStartArray | lib/src/facts/external/json_resolver.cc:107-113 | pushes an array with its key |
| JsonHandlers.EventHandler.OnEndArray | lib/src/facts/external/json_resolver.cc:115-124 | pops, restores the key and adds |
| JsonHandlers.EventHandler.Add | lib/src/facts/external/json_resolver.cc:127-156 | a fact, an element or an entry, or the exception for a missing key or object |
| Brackets.CloseFindsMatch | scripts/cpplint.py:1242-1285 | the forward scan ends just past a position exactly when the bracket there matches, by depth over the whole text |
| Brackets.ReverseFindsMatch | scripts/cpplint.py:1315-1357 | the backward scan ends at a position exactly when the bracket there matches |
| Brackets.CloseFindsNothing | scripts/cpplint.py:1242-1285 | the forward scan finds nothing exactly when no bracket matches, and then gives the number of lines |
| Brackets.ReverseFindsNothing | scripts/cpplint.py:1315-1357 | the backward scan finds nothing exactly when no bracket matches, and then gives line 0 |
| Brackets.PairsExactly | scripts/cpplint.py:1262-1267 | which characters are brackets, and which close which |
| Brackets.ScansAreInverse | scripts/cpplint.py:1242-1357 | one scan leads from one bracket to the other exactly when the other leads back |
| Brackets.ReverseUndoesClose | scripts/cpplint.py:1242-1357 | whenever the forward scan finds an end, the backward scan from just before it returns to the start |
| Brackets.FindEndOfExpressionInLine | scripts/cpplint.py:1218-1239 | the loop over the rest of a line |
| Brackets.FindStartOfExpressionInLine | scripts/cpplint.py:1288-1312 | the loop back over a line |
| Brackets.FindClosing | scripts/cpplint.py:1242-1285 | the loop over the following lines |
| Brackets.FindOpening | scripts/cpplint.py:1315-1357 | the loop over the preceding lines |
| Nesting.ConditionalsCountAsFirstBranch | scripts/cpplint.py:1836-1890 | for well-nested conditionals at any depth, with any braces on the directive lines themselves: the state after the text is the state after the text without its else and elif branches |
| Nesting.RunIsEffect | scripts/cpplint.py:1836-2046 | from any state, the block stack is what the first branches make of it and the saved stacks are as before |
| Nesting.BranchStartsAfresh | scripts/cpplint.py:1861-1872 | at any point inside any further branch, the blocks are what its head line and its own lines so far make of the stack before the conditional, whatever the branches before it hold |
| Nesting.FirstBranchGoesOn | scripts/cpplint.py:1857-1860 | at any point inside the first branch, they are what the opening line and its own lines make of it |
| Nesting.StrayDirective | scripts/cpplint.py:1873-1890 | outside any conditional, the end or branch of one is an ordinary line |
| Nesting.BranchesKeep | scripts/cpplint.py:1861-1887 | through all further branches, what the end of the conditional restores is the first branch's stack |
| Nesting.BalancedKeepsStack | scripts/cpplint.py:2012-2046 | text with as many blocks to close as are open inside a block leaves exactly that block |
| Nesting.DeclarationEnds | scripts/cpplint.py:2012-2046 | a class or namespace ends with its body's closing brace, or with a semicolon or closing parenthesis before its opening one |
| Nesting.NamespacesOpened | scripts/cpplint.py:1929-1947 | leading namespaces are opened in order, each expecting its brace unless it is on the line |
| Nesting.NamespacesThenClass | scripts/cpplint.py:1929-1979 | on one line a class is inside the last namespace |
| Nesting.ParenthesesAddUp | scripts/cpplint.py:1906-1911 | parentheses are counted in the innermost block, over as many lines as it takes |
| Nesting.ClassLine | scripts/cpplint.py:1974-1979 | a line declares a class unless a parenthesis is open around it |
| Nesting.NestingState.Preprocess | scripts/cpplint.py:1836-1890 | the method on its two stacks takes the step proved about above |
| Nesting.NestingState.UpdateLine | scripts/cpplint.py:1892-2046 | one line: directive, parentheses, namespaces, class, tokens |
| Nesting.NestingState.DeclareNamespaces | scripts/cpplint.py:1929-1947 | the loop over leading namespace declarations |
| Nesting.NestingState.ConsumeTokens | scripts/cpplint.py:2012-2046 | the loop over braces, semicolons and closing parentheses |
| Units.ExponentFits | lib/src/util/string.cc:47 | the unit chosen is the largest power of 1024 not above the size |
| Units.SmallSizeIsExact | lib/src/util/string.cc:44-46 | a size below 1024 is shown as it is |
| Units.SizeIsShownWell | lib/src/util/string.cc:40-64 | every 64-bit size from 1024 is shown in a unit, never by the fallback, from 1.00 to below 1024.00, rounded to the nearest hundredth of the unit chosen before any roll-over, half a hundredth up |
| Units.SizesAreMonotone | lib/src/util/string.cc:40-64 | a larger size never looks smaller, across units and roll-overs |
| Units.FullExactly | lib/src/util/string.cc:66-82 | 100% is shown exactly when everything is used or the total is 0 |
| Units.PercentageMonotone | lib/src/util/string.cc:66-82 | more used never shows less |
| Units.PercentageIsNear | lib/src/util/string.cc:66-82 | rounded to the nearest hundredth, half a hundredth up, or held at 99.99% when the truth is from 99.995% |

## Left out

- Resolvers' own code: platform facts, files, system calls and child commands; a resolver is a terminating script of
  reads and writes. What its `resolve` does besides is not modelled.
- Iterator validity in `resolve_fact`: each loop takes a still registered covering resolver until none is left, the
  first in registration order. Registering a resolver from inside another one is not modelled.
- `collection::clear`, `empty`, `write`, the printers, logging, and the callback of `each`.
- `collection::add` from external directories and the environment: only its effect on a fact, `Facter.Honor`.
- LazyEager.LazyEqualsEager: assumes disjoint coverage, because with overlapping coverage the order shows
  (`ResolverRuns.FirstTakenWins`), and acyclic reads, because in a cycle the read that closes it sees no value yet
  (`LazyEager.CycleShowsOrder`).
- ResolverRuns.AddedValueStays: assumes that pending resolvers write only names they cover; one that writes other
  names may of course overwrite any fact.
- ResolverRuns.FirstTakenWins: assumes that the resolver taken first writes the name at all, and that it does so in its
  last step or resolvers write only names they cover; else a resolver that ran inside it may be the last to write.
- A confine's test, its block or the comparison with its expected value, is a function of the fact's value.
- The Ruby C API, garbage collection and registered addresses. Blocks are pure functions of the values they are given
  that may raise; a block cannot define chunks or facts. Messages of exceptions are not modelled.
- A Ruby resolution's block reads a list of facts and then computes; reads that depend on earlier reads are not
  modelled. Of a command only its outcome is. Timeouts are left out.
- RubyFactObjects.Fact.Flush: does not call the flush blocks of the resolutions, because blocks have no effect here.
- RubyFactObjects.Facter.FlushAll: does not call the flush blocks of the resolutions, for the same reason.
- RubyFactObjects.Facter.Read: does not load files of custom facts by name, because what a file does is Ruby code; names
  come normalised to lower case.
- Nesting.NestingState.UpdateLine: leaves out access control, the checks at the begin and end of a block, and inline
  assembly, none of which changes which blocks are open.
- The native collection seen by custom facts is a map of resolved values, none of them nil.
- `std::sort` leaves equal weights in any order: the sorter is a parameter, and everything holds for each.
- Callbacks are functions of the lines they have received; they do not change the line they are given.
- The Windows pipe reader, which skips later pipes once an earlier one is closed or pending.
- Streams.AnyChunkingDelivers: assumes that reading the range before the first newline character gives one empty token
  when that range is empty, as the split iterator of Boost does for an empty range.
- CommandLines.RoundTripExactly: the runtime's special rule for the program name is not modelled, nor how the program
  name is put before the arguments.
- JsonEvents.HandlerReads: its condition is sufficient only, because a document with an empty key before a string may
  still end in the same exception by a later fault. `JsonEvents.HandlerTakes` needs no condition, and
  `JsonEvents.AcceptedExactly` is exact.
- The JSON parser, its number syntax and the HTTP client; integers of all widths are one event, doubles are reals, a
  moved-from key is empty, and `EndArray` outside an array does not occur.
- Hash order in Ruby values: hashes are maps.
- Regular expressions, comments and style rules of the checker: a line is its directive, parentheses, namespaces, class
  declaration and tokens. Inline assembly, access control, indentation and class ends are left out.
- Text formatting of sizes and percentages, floating-point rounding (rounding is exact, half up), `frequency` and
  `needs_quotation`.
