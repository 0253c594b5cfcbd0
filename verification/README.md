# CensorHub: a verified model of the filter, its hot update and its caches

CensorHub finds sensitive words in user texts. It promises one thing: a text is reported, masked or
highlighted exactly where an active word occurs in its normalised form. Four components make that
promise hard to keep, and this project models each of them and proves what it contributes.

* **The automaton** (`Suffixes`, `NaiveSearch`, `SearchMeaning`, `HopCost`, `Automaton`). A mutable trie
  is built word by word, fail links are set breadth first with merged output lists, and a text is scanned
  in one pass. The result is proved equal to looking at every window of the text and every word: same
  hits, same multiplicity, same order. The fail links followed while building and while scanning are
  exactly those that words and text dictate, and both totals are proved linear; the guard against
  self-referring fail links is proved never to fire.
* **Rewriting** (`Intervals`, `Masking`, `MaskRuns`, `Highlighting`, `HighlightCollisions`). The boolean
  mask of the replace strategy and the merged intervals of the highlight strategy are proved to cover the
  same positions. Masking the automaton's own hits leaves nothing to find for every dictionary whose words
  all have the same number of mask runes at either end and hold no run of them in which a word would fit; a
  decoder recovers text and intervals from highlighted output.
* **Hot update** (`WordTable`, `WordRepo`, `HotUpdate`, `PollService`, `ReconcileSteps`, `FilterEngine`,
  `CacheKey`, `Filtering`, `VersionedCache`, `BatchDetect`, `EndToEnd`). The polling protocol, the versioned
  result cache and the batch worker pool are state machines; every invariant is proved for every
  interleaving of writers, poller, engine, readers and workers. The sequential code of the same functions
  is given as classes and methods, and one reconcile of that code is proved to be a run of the protocol.
  `EndToEnd` joins poller, engine and readers in one run and states the promise from table to answer.
* **The cache levels** (`Breaker`, `LocalCache`, `RedisStore`, `MultiLevel`, `Invalidation`). A circuit
  breaker with a clock, 32 shards that stand for one bounded map with expiry, and two levels that never
  invent a value and never keep one past a fixed age, whatever Redis does.

Normalisation and the two hash functions are parameters: any total function will do. A rune sequence is a
Dafny `string`. Times are integers handed to each call, the outcome of every database or Redis request is
an input, and map iteration picks keys in any order.

## What the code does beside its own description

* `filter_app_service.go` lines 100-102 say that the version in a cache key is the version of the
  automaton used for matching. In every run this holds exactly when no rebuild is half published at the
  moment the version is read and none stores its automaton before the match
  (`VersionedCache.KeyVersionIsExactIff`); a run in which it fails is `VersionedCache.KeyMayLagBehind`. The
  automaton is never older than the key says, and that is enough (`VersionedCache.AnswersAreFresh`).
* `InitEngine` loads the words first and takes the fingerprint afterwards, the opposite of the order that
  `word_app_service.go` lines 351-357 call essential. A word added between the two queries can stay out of
  the engine until somebody writes again. `HotUpdate.InitSafeIff` says exactly when this happens,
  `HotUpdate.UnsafeInitHappens` shows that it can, `HotUpdate.UnsafeInitStaysStale` that it stays. A row
  that goes away between the two queries stays in the engine just as long; `HotUpdate.EngineExactIff` says
  exactly when the engine holds the active rows and nothing else.
* With `maxAttempts` below one, `rebuildWithRetry` returns no error without trying, and the fingerprint is
  noted without a rebuild (`PollService.NoAttemptsCommitsBlindly`); what the engine missed it then misses for
  as long as nobody writes (`ReconcileSteps.BlindCommitKeepsGaps`, `ReconcileSteps.BlindCommitLosesUpdate`).
  `defaultPollConfig` fixes the value at 3, so only an injected configuration can do this.
* The highlight strategy returns a text without hits unescaped, so it can equal the highlighted form of
  another text: `HighlightCollisions.Collides` gives the word, the two texts and the two searches.
  `HighlightCollisions.CollidesIff` says for every dictionary and every string exactly when that is so, and
  `HighlightCollisions.NoCollisionWithoutSpecials` that it never is when no word contains a rune that HTML
  escapes and normalisation acts rune by rune on the highlighted text and on the output, keeping those runes
  special. Without the condition on normalisation it can be: a word that composes with the tag before it
  disappears (`HighlightCollisions.CompositionCollides`). `Highlighting.UnescapedWithoutHits` says for which
  texts the missing escape does no harm.
* A word that contains the mask rune can survive masking in some dictionary (`Masking.MaskRuneDecides`), but
  need not: masking is complete whenever all words have the same number of mask runes at either end and no word
  holds a run of them in which a word would fit (`MaskRuns.FramedCensors`), as the dictionary of the one
  word "a*b" shows (`MaskRuns.MaskInsideIsHarmless`). For a dictionary of one word the condition is exact
  (`MaskRuns.OneWordCensorsIff`).
* Invalidation is not reliable. A call that runs alone leaves the key readable in Redis when the breaker
  refuses it or Redis does not carry it out (`MultiLevel.InvalidatedAlone`). When calls overlap, a key that
  both levels dropped comes back exactly through later writes (`Invalidation.ForgottenIff`,
  `Invalidation.RemovedIff`), for instance by a `Get` that had fetched before
  (`Invalidation.OverlappingGetRefills`); how old the value can be is bounded (`Invalidation.RedisRefill`,
  `Invalidation.LocalRefill`). Freshness rests on versioned keys, not on invalidation.

## Model

| member | source | states |
|---|---|---|
| Suffixes.LongestSuffixIsLongest | internal/infrastructure/algorithm/ac_automaton.go:103-112 | the suffix that fail links aim at is a path of the trie, and no longer suffix is one |
| Suffixes.LongestSuffixOfExtension | internal/infrastructure/algorithm/ac_automaton.go:144-152 | one more rune can be read knowing only the longest suffix reached so far: nothing else of the text matters |
| Suffixes.FailStep | internal/infrastructure/algorithm/ac_automaton.go:145-148 | following a fail link from a node that cannot read the rune loses no candidate |
| Suffixes.FailOfChild | internal/infrastructure/algorithm/ac_automaton.go:103-117 | a child's fail path is found by extending its parent's fail path |
| NaiveSearch.TriePathsPrefixClosed | internal/infrastructure/algorithm/ac_automaton.go:68-73 | every prefix of a trie path is a trie path |
| NaiveSearch.WordsEndingAtLongestSuffix | internal/infrastructure/algorithm/ac_automaton.go:154-163 | the words that end a text are those that end its longest suffix in the trie |
| NaiveSearch.WordsEndingAlongFail | internal/infrastructure/algorithm/ac_automaton.go:119-122 | a complete output list is the node's own words followed by the complete list of its fail node |
| NaiveSearch.ScanStep | internal/infrastructure/algorithm/ac_automaton.go:144-163 | how naive search and longest suffix grow by one rune, for every word list and text |
| NaiveSearch.NothingToFind | internal/infrastructure/algorithm/ac_automaton.go:134-136 | with no nonempty word the early return agrees with naive search |
| SearchMeaning.SearchIsDetermined | internal/infrastructure/algorithm/ac_automaton.go:133-167 | a result list is the one searched for if and only if it is in scan order (end ascending, longest first) and lists in every window one hit for each entry spelled there, with that entry's text, category and level, duplicates included, in insertion order |
| SearchMeaning.SearchFindsOccurrences | internal/infrastructure/algorithm/ac_automaton.go:155-161 | an item is among the hits if and only if some entry occurs in its window and it carries that entry's own text, category and level |
| SearchMeaning.CountsNonempty | internal/infrastructure/algorithm/ac_automaton.go:61-82 | the word count is the number of entries with nonempty normal form |
| SearchMeaning.WindowsDetermine | internal/infrastructure/algorithm/ac_automaton.go:133-167 | two lists in scan order that agree in every window are the same list |
| HopCost.FailHopsBound | internal/infrastructure/algorithm/ac_automaton.go:104-107 | following h fail links costs h - 1 levels of depth, counting the hop from the root to nil |
| HopCost.HopsAlongWord | internal/infrastructure/algorithm/ac_automaton.go:100-117 | the fail links followed for all prefixes of a word are at most its length less one, less the depth of its fail path |
| HopCost.BuildIsLinear | internal/infrastructure/algorithm/ac_automaton.go:86-125 | all fail links followed while building are at most the sum over nonempty words of length less one |
| HopCost.StepHopsBound | internal/infrastructure/algorithm/ac_automaton.go:145-152 | the fail links followed to read one rune are paid for by the depth lost, less the one level earned |
| HopCost.ScanIsLinear | internal/infrastructure/algorithm/ac_automaton.go:144-152 | for every text the fail links a scan follows plus the depth it ends at are at most the number of runes |
| HopCost.StepHopsMeaning | internal/infrastructure/algorithm/ac_automaton.go:145-148 | the links counted for a scan step are exactly those before the first path that can read the rune, or the root |
| HopCost.FailHopsMeaning | internal/infrastructure/algorithm/ac_automaton.go:104-107 | the links counted while building are the same ones, and one more to nil when even the root cannot read the rune |
| Automaton.AhoCorasick.constructor | internal/infrastructure/algorithm/ac_automaton.go:35-49 | for every entry list the result is a finished automaton for exactly these entries |
| Automaton.AhoCorasick.Insert | internal/infrastructure/algorithm/ac_automaton.go:59-83 | keeps the trie invariant (a tree, one node per prefix, own words listed in order) with one more word; entries with empty normal form change nothing |
| Automaton.AhoCorasick.OneNodePerPath | internal/infrastructure/algorithm/ac_automaton.go:68-73 | two nodes with the same path are the same node |
| Automaton.AhoCorasick.FindFail | internal/infrastructure/algorithm/ac_automaton.go:103-107 | the walk along fail links of shallower, finished nodes stops at the node whose child is wanted, or at nil, after exactly the specified number of hops |
| Automaton.AhoCorasick.SetFail | internal/infrastructure/algorithm/ac_automaton.go:104-117 | the fail link leads to the longest proper suffix in the trie; the self-reference branch is unreachable |
| Automaton.AhoCorasick.MergeOutput | internal/infrastructure/algorithm/ac_automaton.go:119-122 | appending the fail node's list completes the node's list |
| Automaton.AhoCorasick.LinkTopLevel | internal/infrastructure/algorithm/ac_automaton.go:89-93 | links and queues the root's children in any map order, without a hop |
| Automaton.AhoCorasick.LinkChildren | internal/infrastructure/algorithm/ac_automaton.go:100-123 | links and queues one node's children in any map order; keeps the breadth-first frontier |
| Automaton.AhoCorasick.NextNode | internal/infrastructure/algorithm/ac_automaton.go:96-101 | the queue is ordered by depth, and every node as shallow as the one taken from it is already finished |
| Automaton.AhoCorasick.NextChild | internal/infrastructure/algorithm/ac_automaton.go:100-101 | a child is reached once, when its parent is expanded |
| Automaton.AhoCorasick.AllDone | internal/infrastructure/algorithm/ac_automaton.go:96-98 | an empty queue means that every node is finished |
| Automaton.AhoCorasick.BuildFailPointers | internal/infrastructure/algorithm/ac_automaton.go:86-125 | for every map order every fail link and every output list is finished, and the hops equal the specified total, within the linear budget |
| Automaton.AhoCorasick.Advance | internal/infrastructure/algorithm/ac_automaton.go:145-152 | moves to the node of the longest suffix in the trie, following exactly the links specified for this rune |
| Automaton.AhoCorasick.SearchNormalized | internal/infrastructure/algorithm/ac_automaton.go:133-167 | the hits equal naive search for every text; the fail hops are exactly those specified for trie and text, the depth that of the longest suffix, and together they are at most the number of runes |
| Intervals.MergeIntervals | internal/infrastructure/algorithm/strategy_highlight.go:42-65 | for nonempty matches in any order the result is strictly separated and covers exactly their union |
| Intervals.MergeIsCanonical | internal/infrastructure/algorithm/strategy_highlight.go:53-64 | merging left to right keeps separation and coverage |
| Intervals.SeparatedIsUnique | internal/infrastructure/algorithm/strategy_highlight.go:36-65 | separated interval lists that cover the same positions are equal |
| Intervals.MergeIgnoresOrder | internal/infrastructure/algorithm/strategy_highlight.go:47-51 | permuting the matches or breaking ties differently in the sort does not change the result |
| Intervals.CanonicalIsMerged | internal/infrastructure/algorithm/strategy_highlight.go:42-65 | an interval list is the canonical union if and only if it is the merged one |
| Masking.ReplaceMatches | internal/infrastructure/algorithm/strategy_replace.go:37-87 | position k of the output is the mask rune if and only if some match covers k; it rewrites the original when lengths agree, else the normal form |
| Masking.MaskedExactlyOccurrences | internal/infrastructure/algorithm/strategy_replace.go:52-58 | for the automaton's hits a position is masked if and only if it lies in an occurrence of an active word |
| Masking.LeftoverUsesMask | internal/infrastructure/algorithm/strategy_replace.go:52-86 | any word found after masking uses a mask rune that masking put there |
| Masking.CensoringIsComplete | internal/infrastructure/algorithm/strategy_replace.go:52-86 | if no word contains the mask rune, nothing is found in the masked text |
| Masking.CensoringNormalized | internal/infrastructure/algorithm/strategy_replace.go:76-86 | complete and minimal on the normalised text |
| Masking.CensoringOriginal | internal/infrastructure/algorithm/strategy_replace.go:62-74 | on the equal-length branch: if normalisation acts rune by rune on this original and on the result, the result is clean and every changed position lies in an occurrence |
| Masking.MaskRuneDecides | internal/infrastructure/algorithm/strategy_replace.go:23-23 | beside the one-rune word of any rune it does not contain, a word survives masking in some text if and only if it contains the mask rune |
| MaskRuns.FramedCensors | internal/infrastructure/algorithm/strategy_replace.go:52-86 | masking is complete in every text for every dictionary whose words have the same number of mask runes at either end and hold no run of them in which a word fits |
| MaskRuns.MasklessIsFramed | internal/infrastructure/algorithm/strategy_replace.go:52-86 | this covers every dictionary without the mask rune |
| MaskRuns.OneWordCensorsIff | internal/infrastructure/algorithm/strategy_replace.go:52-86 | for one word masking is complete in every text if and only if the word is empty, or has another rune and as many mask runes at its end as at its start |
| MaskRuns.MaskInsideIsHarmless | internal/infrastructure/algorithm/strategy_replace.go:23-23 | the dictionary of the one word "a*b" is censored completely although the word contains the mask |
| Highlighting.HighlightMatches | internal/infrastructure/algorithm/strategy_highlight.go:67-105 | the loops write the canonical intervals as tags around escaped text |
| Highlighting.DecodeRender | internal/infrastructure/algorithm/strategy_highlight.go:85-104 | decoding what the printer writes from any position gives back the rest of the text and its intervals |
| Highlighting.HighlightRoundTrip | internal/infrastructure/algorithm/strategy_highlight.go:67-105 | for the automaton's hits decoding recovers exactly the target runes and merged intervals, which cover what the replace strategy masks |
| Highlighting.HighlightInjective | internal/infrastructure/algorithm/strategy_highlight.go:85-104 | equal output means equal text and equal intervals |
| Highlighting.RenderIsSafe | internal/infrastructure/algorithm/strategy_highlight.go:85-104 | apart from the two tags the output has no raw angle bracket and no raw quote, whatever the text |
| Highlighting.UnescapedWithoutHits | internal/infrastructure/algorithm/strategy_highlight.go:68-70 | the unescaped early return reads back as itself if and only if the text has none of the five special runes |
| HighlightCollisions.PrintedIff | internal/infrastructure/algorithm/strategy_highlight.go:85-104 | a string is the highlighted form of some text and nonempty intervals if and only if it decodes to such a pair and printing that gives it back |
| HighlightCollisions.CollidesIff | internal/infrastructure/algorithm/strategy_highlight.go:67-105 | for every dictionary and normalisation: a string, such as a text returned unescaped, is the highlighted form of some text if and only if it reads back as a text whose marks are where the dictionary has its hits |
| HighlightCollisions.NoCollisionWithoutSpecials | internal/infrastructure/algorithm/strategy_highlight.go:88-95 | if no word contains an escaped rune, and normalisation acts rune by rune on the highlighted text and on the output and keeps escaped runes escaped, a highlighted form still holds a hit, so it is never a text without hits |
| HighlightCollisions.CompositionCollides | internal/infrastructure/algorithm/strategy_highlight.go:88-96 | with a normalisation that composes a tag's last rune with the next one, a word of one unescaped rune has a highlighted form without hits |
| HighlightCollisions.Collides | internal/infrastructure/algorithm/strategy_highlight.go:68-70 | with the one word "&&" the highlighted form of "&&" is a text that has no hit itself |
| WordTable.StampsTellTablesApart | internal/domain/repository/word_repository.go:20-32 | with strictly later write stamps two tables of one history have equal fingerprints if and only if their active rows are equal |
| WordTable.IdsTellTablesApart | internal/domain/repository/word_repository.go:20-32 | the same without any clock, for inserts with fresh ids and deletes |
| WordTable.UpdateUnnoticedIff | internal/domain/repository/word_repository.go:25-27 | for every stamp: an update of an active row goes unnoticed if and only if its stamp equals the latest one, or is below it while another active row carries the latest |
| WordRepo.BatchExtends | internal/infrastructure/persistence/mysql/word_repo.go:165-184 | a batch insert keeps all rows, makes every text present, uses one id for every row given and stamps what it adds batch by batch |
| WordRepo.BatchCopies | internal/infrastructure/persistence/mysql/word_repo.go:170-178 | every row a batch adds equals one of the given rows in text, category, level and status |
| WordRepo.ExtendsIsWrite | internal/infrastructure/persistence/mysql/word_repo.go:165-184 | so it is a write of the kind the fingerprint notices, under either discipline |
| WordRepo.Repository.Create | internal/infrastructure/persistence/mysql/word_repo.go:23-32 | one row under the next id with the given text, category, level and status, active if and only if its status is 1, or none when the text is taken; the id is used up either way; texts stay unique |
| WordRepo.Repository.Update | internal/infrastructure/persistence/mysql/word_repo.go:34-37 | a row that is there gets the given text, category, level, status and stamp, all others stay, and it is active afterwards if and only if the status is 1; a taken text is refused; a row without id is inserted; a row that is gone is inserted again, or overwrites the row that has its text by now; texts stay unique |
| WordRepo.Repository.Delete | internal/infrastructure/persistence/mysql/word_repo.go:39-41 | removes the row and never reuses its id |
| WordRepo.Repository.BatchCreate | internal/infrastructure/persistence/mysql/word_repo.go:165-184 | keeps all rows, adds only copies of given rows, makes every text present, counts what it adds; stamps batch by batch of 500 |
| WordRepo.Repository.FindAllActive | internal/infrastructure/persistence/mysql/word_repo.go:105-115 | exactly the active rows, each once, in any order |
| WordRepo.Repository.ActiveFingerprint | internal/infrastructure/persistence/mysql/word_repo.go:138-163 | count, largest id and latest stamp of exactly the active rows, zero for none |
| HotUpdate.StepKeepsInv | internal/application/service/word_app_service.go:358-432 | every step of poller or writer keeps the relation between last fingerprint, engine and table |
| HotUpdate.NoUpdateIsLost | internal/application/service/word_app_service.go:338-388 | in every run from a fresh start, whenever the current fingerprint equals the last one, every active row is in the engine |
| HotUpdate.EngineExactIff | internal/application/service/word_app_service.go:338-388 | while the noted fingerprint is current, an engine loaded from some table holds exactly the active rows if and only if its own rows have that fingerprint |
| HotUpdate.InitSafeIff | internal/application/service/word_app_service.go:448-466 | the start-up load missed no active row if and only if no stamp in the fingerprint is later than the clock at the load |
| HotUpdate.NoUpdateIsLostAfterInit | internal/application/service/word_app_service.go:448-466 | after a start-up that is safe in this sense no later update is lost either |
| HotUpdate.UnsafeInitStaysStale | internal/application/service/word_app_service.go:448-466 | after an unsafe one no poll repairs the engine until somebody writes |
| HotUpdate.UnsafeInitHappens | internal/application/service/word_app_service.go:448-466 | one word created between the two queries makes the start-up unsafe |
| HotUpdate.GoodReconcileHeals | internal/application/service/word_app_service.go:358-388 | whatever failed before, one reconcile on a quiet table whose queries succeed ends with the table's fingerprint and an engine that misses nothing; if it rebuilt, the engine holds exactly the active rows; no later poll does anything |
| HotUpdate.FailureChangesNothing | internal/application/service/word_app_service.go:362-378 | over any stretch of a run without a successful rebuild, however queries fail and writers interleave, the engine stays, and a poller that was idle does not note a fingerprint |
| PollService.RetryMeaning | internal/application/service/word_app_service.go:392-432 | retrying ends with attempt n if and only if n is the first success within the limit and no wait before it was cancelled; it gives up if and only if all allowed attempts failed uncancelled |
| PollService.WaitsClosedForm | internal/application/service/word_app_service.go:397-429 | n waits sleep retryBackoff times (2 to the n, less one) |
| PollService.NoAttemptsCommitsBlindly | internal/application/service/word_app_service.go:398-431 | no attempt is made and success reported if and only if maxAttempts is below one |
| PollService.WordAppService.RebuildWithRetry | internal/application/service/word_app_service.go:392-432 | the loop realises the retry outcome, sleeps the doubled waits between attempts, and touches the engine only on success |
| PollService.WordAppService.ReconcileOnce | internal/application/service/word_app_service.go:358-388 | notes the fingerprint taken before the rebuild and invalidates the filter results, only when the rebuild reported success; otherwise changes nothing |
| PollService.WordAppService.InitEngine | internal/application/service/word_app_service.go:448-466 | rebuilds from the loaded words and raises the version by one; a failed fingerprint query is no error and leaves the last fingerprint |
| ReconcileSteps.RetryIsRun | internal/application/service/word_app_service.go:392-432 | retrying, with any outcomes and any writes between the attempts, is a run of the polling protocol that ends as the retry outcome says |
| ReconcileSteps.ReconcileIsRun | internal/application/service/word_app_service.go:358-432 | one whole reconcile is a run of the protocol between idle states, ending with the engine and the noted fingerprint the method leaves |
| ReconcileSteps.BlindCommitKeepsGaps | internal/application/service/word_app_service.go:375-380 | after a reconcile without an attempt the poller does nothing in any run without writes, and a row is missing if and only if it was missing before |
| ReconcileSteps.BlindCommitLosesUpdate | internal/application/service/word_app_service.go:375-380 | a fresh service that notes its first word this way has a current fingerprint and an active row outside the engine |
| FilterEngine.ACFilterEngine.Rebuild | internal/infrastructure/algorithm/filter_engine.go:39-59 | a new automaton for exactly the active words, version up by one modulo 2 to the 64, old automaton untouched |
| FilterEngine.ActiveEntriesMeaning | internal/infrastructure/algorithm/filter_engine.go:43-53 | the entries of a rebuild are those of the words with status 1, each once, in order, column by column |
| FilterEngine.ACFilterEngine.Match | internal/infrastructure/algorithm/filter_engine.go:28-36 | the hits of naive search in the normalised text |
| CacheKey.Base36RoundTrip | internal/application/service/filter_app_service.go:72-85 | base-36 printing can be undone and contains no colon |
| CacheKey.KeyInjective | internal/application/service/filter_app_service.go:72-85 | equal keys mean equal strategy, version and text hash |
| CacheKey.KeyFits | internal/application/service/filter_app_service.go:72-85 | for 64-bit numbers a key has at most 45 bytes and starts with the invalidated prefix |
| CacheKey.KeyLayout | internal/application/service/filter_app_service.go:66-85 | the layout of a key on an example |
| CacheKey.FilterCacheKey | internal/application/service/filter_app_service.go:72-85 | the builder writes this key |
| Filtering.HitIffWordOccurs | internal/application/service/filter_app_service.go:118-130 | a response reports a hit if and only if some word occurs in the normalised text |
| Filtering.MaxRiskLevel | internal/domain/valueobject/filter_result.go:27-35 | an upper bound of all levels that is zero or one of them |
| Filtering.FilterAppService.Filter | internal/application/service/filter_app_service.go:88-140 | a cached answer is returned; otherwise, for the requested strategy if it is valid and registered and else for detection: stars over exactly the positions inside some word, or marks over exactly these that decode to the text, or the original; the naive hits, their number and largest level |
| Filtering.RespondIsAnswer | internal/application/service/filter_app_service.go:115-127 | every response keeps this promise for every dictionary, text and strategy |
| VersionedCache.StepKeepsInv | internal/application/service/filter_app_service.go:100-137 | in every step of engine or reader, an entry under version N was computed by the automaton of rebuild N or later |
| VersionedCache.AnswersAreFresh | internal/application/service/filter_app_service.go:100-137 | in every interleaving a request begun after rebuild N finished gets the answer of rebuild N or later, without any invalidation |
| VersionedCache.AnswersAreRight | internal/application/service/filter_app_service.go:100-137 | with distinct hashes for the texts in play it is the answer to the request's own text |
| VersionedCache.HitsMeanOccurrences | internal/application/service/filter_app_service.go:88-140 | so in every interleaving a request is told of a hit if and only if a word of such a list occurs in its normalised text |
| VersionedCache.AnswersAreComplete | internal/application/service/filter_app_service.go:88-140 | every returned response, cached or not, keeps the whole promise of the filter for one such word list |
| VersionedCache.RebuildPublishes | internal/infrastructure/algorithm/filter_engine.go:55-58 | a rebuild that nothing interrupts publishes its automaton under the next version |
| VersionedCache.MissIsAnsweredAndStored | internal/application/service/filter_app_service.go:103-137 | a reader alone, on a miss, answers with the current automaton and leaves its answer under the current version |
| VersionedCache.StoredIsReused | internal/application/service/filter_app_service.go:105-113 | while the version stays, a later reader of the same text and strategy can be answered from the cache |
| VersionedCache.KeyVersionIsExactIff | internal/application/service/filter_app_service.go:100-119 | over every run a reader matches with the automaton of its key version if and only if no rebuild was half published when it read the version and none stored before it matched |
| VersionedCache.KeyMayLagBehind | internal/infrastructure/algorithm/filter_engine.go:55-57 | a run in which an entry under version 0 was computed by the automaton of rebuild 1 |
| EndToEnd.ActiveWordsAreReported | internal/application/service/word_app_service.go:338-388 | from a moment when the noted fingerprint is current and no rebuild half published, every request begun later reports an active row that stays, with its own text, category and level, wherever its normalised text occurs, under every interleaving of writers, poller, engine and readers |
| EndToEnd.HitsComeFromRows | internal/application/service/filter_app_service.go:88-140 | a hit is only reported when the word of a row that was once active occurs in the text |
| BatchDetect.StepKeepsInv | internal/application/service/filter_app_service.go:170-229 | every step of the pool accounts for every job, slot and counted hit |
| BatchDetect.BatchIsComplete | internal/application/service/filter_app_service.go:170-229 | under every interleaving a returned response has one slot per text with a filter result for that text, empty exactly where the filter call failed, and the hit count equals the number of slots with a hit |
| BatchDetect.CancelledNeverFinishes | internal/application/service/filter_app_service.go:198-222 | over every run, once the context is cancelled no further text is filtered and no response is returned |
| BatchDetect.NeverStuck | internal/application/service/filter_app_service.go:192-222 | in every reachable state before the return some step is possible, without cancellation or a failing filter |
| BatchDetect.RunsAreShort | internal/application/service/filter_app_service.go:192-222 | every run without cancellation makes at most as many steps as there is work at its start, so a batch comes to an end |
| Breaker.CircuitBreaker.Admit | internal/infrastructure/cache/circuit_breaker.go:48-70 | answers and moves as the transition function says |
| Breaker.CircuitBreaker.RecordSuccess | internal/infrastructure/cache/circuit_breaker.go:73-87 | likewise; an open breaker ignores successes |
| Breaker.CircuitBreaker.RecordFailure | internal/infrastructure/cache/circuit_breaker.go:90-105 | likewise; the failure time is noted in every state |
| Breaker.Remembers | internal/infrastructure/cache/circuit_breaker.go:73-105 | after any history a closed breaker counts the failures since the last success, fewer than the threshold; any other remembers the latest failure |
| Breaker.OpensOnThreshold | internal/infrastructure/cache/circuit_breaker.go:97-103 | a closed breaker opens on exactly the failure that completes the row |
| Breaker.StaysClosedIff | internal/infrastructure/cache/circuit_breaker.go:97-103 | it was closed throughout a history if and only if the history holds no row of failures as long as the threshold |
| Breaker.ClosesOnSecondProbe | internal/infrastructure/cache/circuit_breaker.go:77-83 | it closes exactly on the second success since it became half-open, never straight from open |
| Breaker.ClosesAfterTwoSuccesses | internal/infrastructure/cache/circuit_breaker.go:77-83 | whenever it closes, the other success came while half-open and no failure lies between the two |
| Breaker.AdmitsIffTimedOut | internal/infrastructure/cache/circuit_breaker.go:53-70 | an open breaker admits if and only if strictly more than the timeout has passed since the latest failure, also one recorded while open |
| Breaker.RefusesUntilTimeout | internal/infrastructure/cache/circuit_breaker.go:53-70 | whatever is recorded within the timeout, every call in it is refused |
| Breaker.HalfOpensAfterTimeout | internal/infrastructure/cache/circuit_breaker.go:60-64 | after any history, a call more than the timeout after the latest failure makes an open breaker half-open, an earlier one leaves it open |
| Breaker.TwoSuccessesClose | internal/infrastructure/cache/circuit_breaker.go:77-82 | from there the first success keeps it half-open and the second closes it with no failure counted, whatever calls are asked for between |
| Breaker.FailureReopens | internal/infrastructure/cache/circuit_breaker.go:94-98 | a failure of a half-open breaker opens it and starts the timeout anew |
| LocalCache.PerShardLimit | internal/infrastructure/cache/local_cache.go:54-62 | the shards' limits never sum to more than the limit asked for, if that is at least 32, and lose at most 31 places |
| LocalCache.HoldsOnlyLastSet | internal/infrastructure/cache/local_cache.go:79-95 | what is in the cache is what the most recent Set of that key put there, although full shards turn keys away |
| LocalCache.ReadIsLastSetOrMiss | internal/infrastructure/cache/local_cache.go:64-77 | a read is a miss or the most recent Set, never past its expiry |
| LocalCache.EvictionIsInvisible | internal/infrastructure/cache/local_cache.go:144-160 | no later read of a stored key can tell whether eviction cycles ran |
| LocalCache.UnlimitedIsExact | internal/infrastructure/cache/local_cache.go:79-95 | without a limit the shards are exactly one map with expiry |
| LocalCache.TurnedAwayIffFull | internal/infrastructure/cache/local_cache.go:85-89 | a write is turned away if and only if the key is new and its shard has maxItems / 32 keys already (one for a limit below 32) |
| LocalCache.WriteIsRead | internal/infrastructure/cache/local_cache.go:79-95 | after any history a write that has room is read back until its lifetime is over |
| LocalCache.ShardsAgree | internal/infrastructure/cache/local_cache.go:47-51 | two keys share a shard if and only if the last five bits of their hashes agree |
| LocalCache.SizeIsBounded | internal/infrastructure/cache/local_cache.go:54-62 | at most maxItems entries when that is at least 32, else at most 32 |
| LocalCache.ShrinkShard | internal/infrastructure/cache/local_cache.go:97-115 | deleting keys in their shard deletes them from the one map the shards stand for |
| LocalCache.GrowShard | internal/infrastructure/cache/local_cache.go:91-94 | writing a key in its shard writes it in the one map |
| LocalCache.LocalCache.Get | internal/infrastructure/cache/local_cache.go:64-77 | reads the one map at the given time |
| LocalCache.LocalCache.Put | internal/infrastructure/cache/local_cache.go:79-95 | the key holds the value until now + ttl if it was there or its shard has fewer keys than its share of the limit; otherwise nothing changes |
| LocalCache.LocalCache.Remove | internal/infrastructure/cache/local_cache.go:97-102 | removes the key from the one map |
| LocalCache.LocalCache.DeleteByPrefix | internal/infrastructure/cache/local_cache.go:105-115 | removes exactly the keys with the prefix, in any map order |
| LocalCache.LocalCache.InvalidateAll | internal/infrastructure/cache/local_cache.go:118-124 | empties the one map |
| LocalCache.LocalCache.EvictExpired | internal/infrastructure/cache/local_cache.go:144-160 | from every shard removes expired entries only, all of them or exactly 1000, in any map order |
| RedisStore.RedisCache.DeleteByPrefix | internal/infrastructure/cache/redis_cache.go:36-61 | page by page; success means that no key with the prefix is left, failure that some may be |
| MultiLevel.RedisHoldsWrites | internal/infrastructure/cache/multi_level_cache.go:61-75 | every entry of Redis and every answer it gave goes back to a Set, at most the Redis lifetime and one call ago |
| MultiLevel.LocalAnswerIsYoung | internal/infrastructure/cache/multi_level_cache.go:29-58 | under every interleaving of calls and every failure, a local answer was passed to Set at most both lifetimes and two calls ago |
| MultiLevel.AnswersAreYoung | internal/infrastructure/cache/multi_level_cache.go:29-58 | the same for the answers of both levels to one Get |
| MultiLevel.BreakerFollowsHistory | internal/infrastructure/cache/multi_level_cache.go:38-54 | the breaker inside the cache is in the state its own history gives, so its theorems apply |
| MultiLevel.InvalidatedAlone | internal/infrastructure/cache/multi_level_cache.go:78-91 | at the end of a call that ran alone the key is gone locally, and Redis answers for it if and only if it did before and the breaker refused the deletion or Redis did not do it |
| Invalidation.LocalHasIff | internal/infrastructure/cache/multi_level_cache.go:29-107 | over every history the local cache holds a key if and only if it did before and nothing took it out, or a later write kept it for good |
| Invalidation.RedisHasIff | internal/infrastructure/cache/multi_level_cache.go:29-107 | the same for Redis |
| Invalidation.ForgottenIff | internal/infrastructure/cache/multi_level_cache.go:78-79 | after the local deletion the key is back if and only if a later write kept it for good |
| Invalidation.RemovedIff | internal/infrastructure/cache/multi_level_cache.go:85-91 | a deletion that took effect in Redis is undone if and only if a later write took effect |
| Invalidation.RedisRefill | internal/infrastructure/cache/multi_level_cache.go:61-91 | what Redis holds after the deletion was passed to Set at most one call before it |
| Invalidation.LocalRefill | internal/infrastructure/cache/multi_level_cache.go:29-91 | what the local cache holds after both deletions was passed to Set at most one call before, or kept by a Get under way across the deletion |
| Invalidation.OverlappingGetRefills | internal/infrastructure/cache/multi_level_cache.go:38-58 | a Get that fetched just before makes the key readable again after both levels dropped it |
| MultiLevel.MissesAreNeutral | internal/infrastructure/cache/multi_level_cache.go:42-50 | a miss in Redis counts neither as a failure nor as a half-open success; at most the breaker becomes half-open |
| MultiLevel.MultiLevelCache.Get | internal/infrastructure/cache/multi_level_cache.go:29-58 | the local value, else if admitted what Redis answers, which is then kept locally where there is room; the breaker is told of an answer as success, of an error as failure, of a miss nothing; any value returned was passed to Set within the age bound |
| MultiLevel.MultiLevelCache.Set | internal/infrastructure/cache/multi_level_cache.go:61-75 | the local cache holds the value until start + ttl where there is room, Redis if admitted and the write took effect; the breaker is told of a failure exactly when the admitted write was not confirmed |
| MultiLevel.MultiLevelCache.Invalidate | internal/infrastructure/cache/multi_level_cache.go:78-91 | removes exactly the key, locally always, from Redis if admitted and done; the breaker is told how it went |
| MultiLevel.MultiLevelCache.InvalidateByPrefix | internal/infrastructure/cache/multi_level_cache.go:94-107 | removes exactly the keys with the prefix locally, in Redis if admitted and as far as the scan got; the breaker is told how it went |

## Left out

- Unicode normalisation (the NFKC tables of Unicode Standard Annex #15, lower-casing, zero-width removal): a parameter. Nothing is claimed about applying it twice, nor about which original position a normalised one comes from.
- Invalid UTF-8: texts are sequences of runes, so the byte-for-byte behaviour on malformed input is not captured.
- FNV hashing: two parameters; freshness of answers for one's own text assumes distinct hashes for the texts in play.
- JSON encoding, metrics, logging, `CostMs` and `ProcessedAt`.
- SQL, GORM, MySQL and Redis clients: an abstract table and an abstract store. Column defaults are not captured, and no statement fails halfway: a batch insert is one transaction.
- HTTP, gRPC, middleware, configuration loading, tracing, CSV export, rate limiting, CRUD validation and paging: single-branch facts or code outside the repository.
- HotUpdate and VersionedCache and BatchDetect are state machines over values, since their point is interleaving; the same functions in sequential form are the classes of PollService, FilterEngine and Filtering, tied to the protocol by ReconcileSteps.
- BatchDetect: that the scheduler lets a possible step happen is taken for granted when a batch is said to end. `Filter` has no error path at present; the model lets it fail, as the worker code does.
- VersionedCache: the version is unbounded in the interleaving model, while the class `ACFilterEngine` wraps at 2 to the 64. One process with its own cache that starts empty.
- MaskRuns.FramedCensors: sufficient, not necessary, for dictionaries of several words, where survival depends on how all words overlap; exact for one word.
- PollService: durations are unbounded, so overflow of the doubled backoff is not captured; the endless loop of `pollLoop` with its jitter is left out, a run of HotUpdate stands for it. ReconcileOnce says which prefix it invalidates; what the cache does with it is MultiLevel.
- Intervals.MergeIntervals: the library sort is replaced by an insertion sort of which callers know only that it gives a sorted permutation.
- EndToEnd: the service starts fresh, or after a start-up load whose fingerprint query failed or that missed nothing, with an empty cache. What is reported of a row that is changed or disabled meanwhile is not stated.
- WordRepo.Repository.Update: saving a row that is gone follows the client library's documented fallback from update to upsert; which of its columns a column default would replace is not modelled.
- Breaker: each call is one atomic step; the lock-free fast path of `Allow` reads the state once.
- LocalCache: calls that visit all shards are sequences of events under one shard's lock, so the theorems over histories cover their interleaving; the contracts of DeleteByPrefix, InvalidateAll and EvictExpired are for a call that runs alone.
- MultiLevel: process and Redis read one clock. A Redis shared between processes or kept across restarts is not part of this model. Lifetimes are not negative; a zero lifetime, which Redis takes for none, never gets past the configuration (config.go lines 232-236).
- RedisStore.RedisCache.DeleteByPrefix: a prefix containing glob characters would match more in Redis; the one prefix in use has none. Keys written during the scan are not captured.
