# Verification model of the security telemetry platform

This project models the parts of the platform where correctness is a matter of state, search or
protocol, and proves what those parts are for. `dafny verify dfyconfig.toml` checks everything.

| area | modules | what is modelled |
|---|---|---|
| Correlation | `Correlation`, `CorrelationMeaning`, `CorrelationExactness`, `CorrelationEvidence`, `CorrelationEngine`, `CorrelationStore`, `CorrelationRuns`, `CorrelationDeliveries` | evaluation of the four rule types over a window of hits, the in-memory store with its in-place pruning, and whole runs of observations |
| Detection rules | `BooleanGrammar`, `Sigma`, `SigmaQuantifiers`, `SigmaPatterns`, `SigmaMeaning`, `SigmaWords`, `SigmaSelections` | quantifier expansion on the text of a Sigma condition, tokenizing, recursive-descent parsing and evaluation |
| Hunting | `Hunt` | validation of a query tree and its compilation into a SQL clause with positional arguments |
| Ingest | `Processor`, `ProcessorRuns` | the bounded worker pool over a fetched block and the poll, process, commit loop with crashes and replays |
| Quota | `IngestQuota`, `QuotaProtocol` | the reservation script and its two-call bootstrap protocol under any interleaving of gateways |
| Agent | `DiskQueue`, `AgentRuns`, `AgentDelivery`, `SourceHealth` | the store-and-forward queue, the read, enqueue, commit, send, acknowledge loop with crashes, batch selection, and retry backoff |
| Collectors | `Lines`, `Syslog`, `FileTail` | RFC 6587 stream framing and tailing of a growing file |
| API | `RateLimit` | the fixed-window limiter in front of enrollment |
| Shared | `Options`, `Ordering`, `Text` | optional values, string order, white space, trimming and unique sorted lists |

Two styles are used. Code that computes (node evaluation, the hunt tree, framing rules) is a
function, and code that changes state step by step is a class or a method proved equal to a
function or to a property. Concurrent and crashing components (`Processor`, `QuotaProtocol`,
`AgentRuns`) are state machines whose theorems quantify over every list of enabled steps.

## What the proofs found

- **Ordered correlation misses matches when events interleave.** The greedy matcher is complete because
  sorting puts the records of one event next to each other. For every set of (time, event) sightings:
  ordered rules are decided by their meaning on all records with these sightings exactly when no event is
  seen between two sightings of another (`CorrelationExactness.OrderedExactlyWhenUninterleaved`). The same
  condition decides whether more records can make an ordered rule unsatisfied
  (`CorrelationExactness.MonotoneExactlyWhenUninterleaved`); `CorrelationExactness.GreedyMissesWithTwoTimes`
  is an instance. What the matcher does return is a chain of records in every case
  (`CorrelationMeaning.OrderedEvidence`).
- **Selection names are not protected from the tokenizer.** A quantifier pastes the names into text
  that is tokenized again, so a name with a blank or a parenthesis inside falls apart. Quantifiers
  mean what they say exactly when every selection name is readable, that is, one token that is not
  `not` or an opening parenthesis: `SigmaMeaning.ExpansionPreservesMeaning` gives one half for every
  condition, `SigmaMeaning.SomeOfThemExactly` the other already for `1 of them`, and
  `SigmaMeaning.NameWithBlank` an instance.
- **A quantifier pattern that properly begins with `them`** (such as `them_all`) loses its tail to the
  keyword. A condition written in the words of a sentence compiles exactly when every quantifier
  matches something and no pattern is of that kind (`SigmaWords.WrittenCompilesExactly`). The same
  reading makes `1 of themand x`, which is no sentence, compile (`SigmaWords.ThemAndCompiles`).
- **Undecodable records can wedge a channel.** The comment at
  `internal/agent/windows_event.go:377-379` says that one bad event cannot. As many undecodable
  records as one read returns do: no later run, crashes and new records included, raises the
  checkpoint exactly when a full read holds nothing decodable and no event is on its way
  (`AgentRuns.WedgedExactly`), and for every read size such a state is reached from the start
  (`AgentRuns.WedgedIsReachable`). The model's channels are append-only: a real log that overwrites
  its oldest records would end the stall by losing unread ones.
- **A short batch does not always mean a drained queue.** The comment at `cmd/agent/main.go:372`
  holds exactly when the byte limit did not cut the batch (`AgentDelivery.ShortBatchDrainsExactly`,
  with an instance in `AgentDelivery.ShortBatchCanLeaveItems`).
- **Tailing from the end may start inside a line.** The saved offset is at a line boundary exactly
  when a line has been read since, or the file ended with LF when tailing began
  (`FileTail.FileTailer.BoundaryExactly`, with an instance in `FileTail.StartInsideLine`).
- **A positive licence below one byte reads as unlimited** (`QuotaProtocol.PositiveLicenceIsEnforced`,
  `QuotaProtocol.TinyLicenceIsUnlimited`).
- **The syslog reader accepts one byte more than its maximum** on LF-terminated frames, and the
  round trips are stated as exact conditions (`Syslog.TerminatedRoundTripsExactly`).
- **Acknowledging an item twice** can lower the cached count below the number of files, but never falsifies
  the byte total. While no event file is empty, a measured count is exact if and only if no item already
  gone was acknowledged with a positive count since the last scan; in general, if and only if such
  acknowledgements are made up for by removals at count zero (`DiskQueue.Execute`). Of `n` stored items the
  first acknowledged twice leaves a report of `n - 2` for every `n` above two; with two the bytes give the
  error away and a scan corrects it (`DiskQueue.AcknowledgeFirstTwice`).
- **Suppressed failures are never reported.** The comment at `internal/agent/sourcehealth.go:148-149`
  says that repeats are folded away and their number reported. Over every run of reports the number handed
  to the caller is zero: once failures are suppressed none is logged until a success, which drops the count
  (`SourceHealth.SuppressedIsNeverReported`).
- **A bad line stops a file tail for good.** Some poll moves the offset exactly when a complete line comes
  next and no bad line (too long, or one that makes no event) stands first or, within the line limit of a
  poll, behind one line and blank lines (`FileTail.MovesExactly`). Appended text never unblocks a file
  (`FileTail.BlockedStays`, `FileTail.PollRepeatedly`). The loop in `Run` ends at a bad line, so the polls
  that follow are those after restarts, and each enqueues a good line in front of the bad one again
  (`FileTail.RepeatGoodLine`).
- **The fixed window admits up to `2 * limit - 1` requests in one window length**, and no more
  (`RateLimit.IpRateLimiter.FewerThanTwiceTheLimit`, `RateLimit.ReachTheBound`).

## Model

Rows whose last cell begins with **Main** are the main theorems; the others are the operations and the
lemmas they rest on.

| member | source | states |
|---|---|---|
| Correlation.SortSorts | internal/detection/correlation.go:57-65 | the reference arrangement is sorted by event time, event ID and rule ID |
| Correlation.SortedKeysAreUnique | internal/detection/correlation.go:57-65 | two sorted arrangements of the same hits agree on everything the sort compares, so ties are immaterial |
| Correlation.AnySortGivesEvaluate | internal/detection/correlation.go:57-97 | whichever sorted permutation an unstable sort leaves, the evaluation is the same |
| Correlation.EvaluatePermutation | internal/detection/correlation.go:46-97 | **Main.** evaluation gives the same result for every order of the input records, for all rule types |
| Correlation.AllowedKeepsOrder | internal/detection/correlation.go:47-56 | exactly the hits of the listed rules are kept, in order and with repetitions |
| Correlation.UniqueIdsKeepOrder | internal/detection/correlation.go:99-109 | the non-empty event IDs are listed once each, in order of first occurrence |
| CorrelationMeaning.GreedyIsSound | internal/detection/correlation.go:146-167 | what the ordered matcher takes is a strictly increasing choice of records hitting the rules in order with distinct events |
| CorrelationMeaning.ExchangeFirstPick | internal/detection/correlation.go:149-162 | in a list where an event's records are adjacent, the greedy first pick can replace the first pick of any valid choice |
| CorrelationMeaning.GreedyIsComplete | internal/detection/correlation.go:146-167 | if any such choice exists, the ordered matcher succeeds |
| CorrelationMeaning.OrderedMatchExactly | internal/detection/correlation.go:146-167 | **Main.** ordered matching succeeds if and only if a valid choice exists, and returns the event IDs of one |
| CorrelationMeaning.SortedIsContiguous | internal/detection/correlation.go:57-65 | sorting puts the records of one event next to each other when no other event is seen in between |
| CorrelationMeaning.SearchIsSound | internal/detection/correlation.go:119-145 | an assignment found by backtracking gives each rule a distinct unused event that hits it |
| CorrelationMeaning.SearchIsComplete | internal/detection/correlation.go:119-145 | backtracking finds an assignment whenever one exists |
| CorrelationMeaning.UnorderedMatchExactly | internal/detection/correlation.go:119-145 | **Main.** unordered matching succeeds if and only if the rules have distinct representatives, and returns one system in rule order |
| CorrelationMeaning.CountsAreCardinalities | internal/detection/correlation.go:68-87 | the counts are the numbers of distinct event IDs and distinct values among the allowed hits |
| CorrelationMeaning.EvaluateExactly | internal/detection/correlation.go:46-97 | **Main.** a satisfied evaluation always has the order-free meaning of the rule on the set of records, and evaluation is satisfied if and only if it has, for ordered rules when no listed hits interleave, for the other types always |
| CorrelationMeaning.EvaluateIsMonotone | internal/detection/correlation.go:46-97 | adding records never turns a satisfied window unsatisfied: count and temporal rules always, ordered rules when no listed hits interleave |
| CorrelationMeaning.TemporalEvidence | internal/detection/correlation.go:88-90 | the evidence of a satisfied temporal rule is a list of distinct events hitting the rules in rule order |
| CorrelationMeaning.OrderedEvidence | internal/detection/correlation.go:91-93 | whatever times the events have, the evidence of a satisfied ordered rule is a chain of records of distinct events, strictly later from rule to rule |
| CorrelationExactness.OrderedExactlyWhenUninterleaved | internal/detection/correlation.go:57-65 | **Main.** for every set of sightings: ordered evaluation decides its meaning on all records with these sightings if and only if no event is seen between two sightings of another |
| CorrelationExactness.MonotoneExactlyWhenUninterleaved | internal/detection/correlation.go:146-167 | **Main.** the same condition holds if and only if, on records with these sightings, more records never turn a satisfied ordered rule unsatisfied |
| CorrelationExactness.GreedyMissesAround | internal/detection/correlation.go:146-167 | on any three sightings of two interleaved events there are records with a chain that evaluation misses and that it finds on fewer records |
| CorrelationExactness.GreedyMissesWithTwoTimes | internal/detection/correlation.go:146-167 | concrete records, one event at times 1 and 3 around another, where a valid choice exists and the matcher fails |
| CorrelationExactness.EvaluateDependsOnTheSet | internal/detection/correlation.go:46-97 | **Main.** two record lists with the same set of records, in any order and with any repetitions, evaluate equally: verdict, counts and evidence, for all rule types and times |
| CorrelationEvidence.CountReport | internal/detection/correlation.go:68-87 | **Main.** for both count rules: the two counts are the numbers of distinct events and values in the listed records, the verdict compares the rule's own one with the threshold, and the evidence is the first min(count, 1000) events in the order in which they are first seen, by time and event ID |
| CorrelationEvidence.TemporalReport | internal/detection/correlation.go:88-96 | a satisfied temporal rule reports one event per rule and counts them; an unsatisfied or unknown one reports nothing |
| CorrelationEvidence.UniqueIdsInOrder | internal/detection/correlation.go:99-109 | of two listed event IDs the earlier one occurs before any occurrence of the later one |
| CorrelationEngine.RepresentativeSearch.Assign | internal/detection/correlation.go:124-140 | the closure computes the backtracking search; a failed branch leaves `used` and the earlier choices as it found them |
| CorrelationEngine.MatchTemporal | internal/detection/correlation.go:119-168 | the whole matcher, both modes, returns the specified match or none |
| CorrelationEngine.NextFit | internal/detection/correlation.go:152-162 | the inner scan stops at the first record from `start` that hits the rule with an unused event |
| CorrelationEngine.MatchOrdered | internal/detection/correlation.go:146-167 | the greedy loop equals the recursive matcher the exchange argument is about |
| CorrelationEngine.UniqueEventIds | internal/detection/correlation.go:99-109 | the loop lists the distinct event IDs in order of first occurrence |
| CorrelationEngine.EvaluateCorrelation | internal/detection/correlation.go:46-97 | filtering, sorting and the four branches compute the specified evaluation whatever the sort does with ties |
| Text.UniqueStrings | internal/detection/correlation.go:282-293 | exactly the non-blank trimmed values |
| Text.UniqueStringsSorted | internal/detection/correlation.go:282-293 | the unique source rules are strictly sorted, hence without repetition |
| Text.TrimExactly | internal/detection/correlation.go:286 | trimming leaves exactly the text between the white space around it |
| Text.SortStringsExactly | internal/detection/correlation.go:171-172 | sorting forgets exactly the order: two lists sort to the same list if and only if they are permutations |
| CorrelationStore.FilterInPlace | internal/detection/correlation.go:225-234 | filtering through `[:0]` over the array being read keeps exactly the retained records in order and collects the window; a write never passes the read index |
| CorrelationStore.Append | internal/detection/correlation.go:236 | appending, in place or into a larger array, leaves the old contents followed by the new records |
| CorrelationStore.RecordTable.Retain | internal/detection/correlation.go:225-238 | only the observed key changes, to its pruned and extended records, although slices share storage with their past |
| CorrelationStore.MemoryCorrelationStore.ObserveCorrelation | internal/detection/correlation.go:198-250 | **Main.** one call on the class is one step of the store's specification: state and result, error case included |
| CorrelationStore.MemoryCorrelationStore.Accept | internal/detection/correlation.go:208-218 | exactly the sources not yet seen for the event and key are marked and recorded |
| CorrelationStore.MemoryCorrelationStore.Decide | internal/detection/correlation.go:240-249 | a trigger needs the edge and an unused fingerprint, which it consumes |
| CorrelationRuns.PrunedStoreAgrees | internal/detection/correlation.go:222-237 | **Main.** over every run with one spec per key, any window reaching back no more than twice the timespan is the same sequence in the pruned store and in the full history |
| CorrelationRuns.PruningExactly | internal/detection/correlation.go:222-238 | an observation with news drops exactly the records of its key older than twice the timespan, and adds its own |
| CorrelationRuns.FingerprintExactly | internal/detection/correlation.go:170-184 | two triggers share a fingerprint exactly when they agree in key, event and evidence, the latter in any order |
| CorrelationRuns.WindowFromPrunedStore | internal/detection/correlation.go:222-239 | the window of an observation at most one timespan late, read from the pruned store, is the window of everything ever accepted |
| CorrelationRuns.EmissionsAreExplained | internal/detection/correlation.go:240-248 | every emitted fingerprint belongs to an event whose window over the full history is satisfied; ordered rules need that no listed hits of the history interleave |
| CorrelationRuns.TriggersUnlessEmitted | internal/detection/correlation.go:239-249 | a timely observation triggers if and only if it is on the edge and its fingerprint was not emitted before, which it then is; whatever times the events have |
| CorrelationRuns.TriggersExactlyOnTheEdge | internal/detection/correlation.go:198-250 | **Main.** over every timely run an observation whose event keeps its time triggers if and only if its full-history window was unsatisfied without it and is satisfied with it; ordered rules need in addition that no listed hits interleave |
| CorrelationRuns.TriggerMeetsThresholdExactly | internal/detection/correlation.go:239-249 | at the trigger a count rule has exactly threshold distinct events, a value rule exactly threshold distinct values |
| CorrelationRuns.RedeliveryIsIdle | internal/detection/correlation.go:209-221 | delivering any earlier observation again changes no state and never triggers |
| CorrelationRuns.ReplayIsIdle | internal/detection/correlation.go:209-221 | **Main.** replaying earlier observations in any order and number leaves the state as it was |
| CorrelationDeliveries.HistoryIsDelivered | internal/detection/correlation.go:208-218 | **Main.** a record is in the history of a key if and only if some valid observation for the key names its rule as a trimmed non-blank source, no earlier one named it for that event, and event, time and value are those of the observation |
| CorrelationDeliveries.HistoryIsDistinct | internal/detection/correlation.go:208-218 | nothing is recorded twice |
| CorrelationDeliveries.MarkedExactly | internal/detection/correlation.go:209-213 | a source is marked for a key and event exactly when a valid observation reported it |
| CorrelationDeliveries.ValidExactly | internal/detection/correlation.go:271-280 | what is accepted: no required text is only white space, a time, at least one source, and a timespan from one second to a day |
| CorrelationDeliveries.TriggersExactlyWhenMet | internal/detection/correlation.go:198-250 | **Main.** over every timely run: an observation whose event keeps its time triggers if and only if the records delivered in its window did not meet the rule without it and do with it; ordered rules need that no listed hits interleave |
| CorrelationDeliveries.ReportExactly | internal/detection/correlation.go:198-250 | what the caller gets in every timely run: the error for an invalid observation, the empty result for one without news, otherwise the evaluation of the records delivered in the window, listed in any way, with the trigger mark |
| CorrelationDeliveries.FirstObservationTriggers | internal/detection/correlation.go:209-249 | on an empty store a valid observation triggers an event count of one if and only if one of its trimmed non-blank sources is listed |
| BooleanGrammar.ParseExactly | internal/detection/compiler.go:598-678 | **Main.** for any tokens, the parser returns a tree if and only if the token list is a sentence of the grammar with that tree |
| BooleanGrammar.Unambiguous | internal/detection/compiler.go:618-678 | a sentence has one tree, so precedence and left associativity are determined |
| BooleanGrammar.ParsedAtoms | internal/detection/compiler.go:672-677 | only tokens accepted as atoms appear at the leaves |
| BooleanGrammar.RoundTrip | internal/detection/compiler.go:598-678 | parsing the minimally parenthesised print of any tree gives that tree back |
| BooleanGrammar.PrintIsMinimalOr | internal/detection/compiler.go:598-678 | no sentence with the same tree is shorter than its print |
| Sigma.ConditionParser.ParseOr | internal/detection/compiler.go:618-632 | from any position the method returns the grammar's tree and stops where the grammar stops, or fails with its error |
| Sigma.ConditionParser.ParseAnd | internal/detection/compiler.go:633-647 | the same for conjunctions |
| Sigma.ConditionParser.ParseUnary | internal/detection/compiler.go:648-678 | the same for negations, groups and names, with the four error cases |
| Sigma.ParseCondition | internal/detection/compiler.go:598-611 | the parser object returns exactly the grammar's result: the tree when all tokens are consumed, otherwise the error |
| Sigma.ConditionRoundTrip | internal/detection/compiler.go:598-678 | a condition tree survives printing and parsing exactly when its names are known and are not `not` or an opening parenthesis |
| Sigma.ConditionParsedExactly | internal/detection/compiler.go:598-678 | the condition parser accepts exactly the sentences of the grammar, keywords in any letter case |
| Sigma.ParsedNamesAreKnown | internal/detection/compiler.go:672-677 | a parsed condition refers only to known selections among its tokens |
| Sigma.TokenizeRender | internal/detection/compiler.go:613-616 | tokenizing text made of words and parentheses returns those tokens |
| Sigma.TextRoundTrip | internal/detection/compiler.go:598-678 | **Main.** on text, tokenize and parse undo print and render exactly when the names are also words the tokenizer keeps whole |
| SigmaQuantifiers.SelectedAppend | internal/detection/compiler.go:547-557 | the selection names a pattern matches are kept in order |
| SigmaQuantifiers.SelectNames | internal/detection/compiler.go:547-557 | the selection loop with its `them` shortcut returns those names; which names a pattern matches is stated in `SigmaPatterns` |
| SigmaPatterns.GlobExactly | internal/detection/compiler.go:550-557 | **Main.** a name matches if and only if it is the literal pieces of the pattern, split at its stars, in order, with slash-free gaps at the stars and nothing else |
| SigmaPatterns.EveryPatternHasPieces | internal/detection/compiler.go:550-557 | every pattern is such a list of star-free pieces |
| SigmaPatterns.SelectsExactly | internal/detection/compiler.go:546-557 | a quantifier selects a name if and only if its pattern spells `them` in any case or the name fits the pieces, both in lower case |
| SigmaPatterns.LiteralSelects | internal/detection/compiler.go:550-557 | a pattern without a star selects exactly the equal name up to the case of ASCII letters |
| SigmaPatterns.PrefixSelects | internal/detection/compiler.go:550-557 | a literal and a star select exactly the names that begin with the literal and go on without a slash |
| SigmaPatterns.SuffixSelects | internal/detection/compiler.go:550-557 | a star and a literal select exactly the names that end in the literal behind a front without a slash |
| SigmaPatterns.FilterSelectsOne | internal/detection/compiler.go:550-557 | of `selection` and `x_filter`, the pattern `*_filter` selects the second alone |
| SigmaPatterns.LowerExactly | internal/detection/compiler.go:550-552 | two texts are equal in lower case exactly when they agree up to the case of ASCII letters |
| SigmaQuantifiers.MatchOf | internal/detection/compiler.go:536 | the expression matches a count, white space, `of`, white space and the longest pattern, or `them` alone |
| SigmaQuantifiers.ExpandQuantifiers | internal/detection/compiler.go:538-569 | the left-to-right rewriting of the text replaces every match at a word boundary by its parenthesised chain and fails when one selects nothing |
| SigmaQuantifiers.ExpandedWords | internal/detection/compiler.go:545-569 | for any names and text, the expanded text tokenizes to the words of the text with each quantifier replaced by its group; it exists exactly when every quantifier matches something |
| SigmaMeaning.GroupIs | internal/detection/compiler.go:562-566 | the chain is a valid group that is true when some, or for `all` every, selected name holds |
| SigmaMeaning.CompileFollows | internal/detection/compiler.go:536-611 | parsing the expanded tokens follows parsing the terms step by step, so a quantifier behaves as one atom in every context |
| SigmaMeaning.ExpansionPreservesMeaning | internal/detection/compiler.go:536-611 | **Main.** for readable names and every text: it compiles if and only if its terms are a sentence whose quantifiers match something, and then evaluates to that sentence with `1 of P` as "some" and `all of P` as "every" |
| SigmaMeaning.SomeOfThemExactly | internal/detection/compiler.go:536-611 | `1 of them` compiles and means "some selection" if and only if every selection name is readable |
| SigmaMeaning.UnreadableNamesNeverCompile | internal/detection/compiler.go:598-678 | a rule without a readable selection name has no condition that compiles |
| SigmaMeaning.NameWithBlank | internal/detection/compiler.go:562-611 | with the single selection `a b`, which the pattern selects, `1 of a*` does not compile |
| SigmaWords.TextIsWords | internal/detection/compiler.go:536-616 | reading the text and reading its tokens give the same terms, in any layout |
| SigmaWords.WrittenCompilesExactly | internal/detection/compiler.go:536-611 | **Main.** a condition written in the words of a sentence compiles if and only if every quantifier matches something and no pattern properly begins with `them`; then it has the meaning of the sentence |
| SigmaWords.CompilesExactlyWhenWritten | internal/detection/compiler.go:536-611 | without such patterns, a condition compiles if and only if its words spell a sentence whose quantifiers match something |
| SigmaWords.LongThemNeverCompiles | internal/detection/compiler.go:536-569 | in whatever sentence it stands, a pattern that properly begins with `them` keeps the condition from compiling |
| SigmaWords.ThemAndCompiles | internal/detection/compiler.go:536-569 | `1 of themand x`, no sentence in words, compiles |
| SigmaSelections.EvaluatePredicate | internal/detection/compiler.go:345-372 | a present field matches some expected value, or all of them under `all` |
| SigmaSelections.EvaluateSelection | internal/detection/compiler.go:327-343 | true exactly when some alternative holds, with the fields of the first that does |
| SigmaSelections.EvaluateRule | internal/detection/compiler.go:138-162 | the verdict is the condition over exactly the selections that hold, in whatever order the map is walked, with the sorted fields of those selections; a correlation rule never matches one event |
| SigmaSelections.MatchCondition | internal/detection/compiler.go:138-155 | **Main.** from the text of a condition to the verdict on an event: it compiles exactly when it reads as a sentence, and decides its written meaning |
| Hunt.ValidateExpression | internal/hunt/query.go:141-184 | accepts exactly the trees with one branch per node, bounded depth and width, valid predicates and at most 64 predicates in all, and counts them |
| Hunt.CompileNode | internal/hunt/query.go:256-340 | the appending loops emit the specified clause and arguments |
| Hunt.PredicateIs | internal/hunt/query.go:286-340 | an accepted predicate compiles to one SQL test whose value on every row, with its arguments, is the meaning of comparator and values: integers compared as integers, texts regardless of case |
| Hunt.PositionIsContains | internal/hunt/query.go:331-332 | the position test is positive exactly when the text contains the value |
| Hunt.ValidPredicateExactly | internal/hunt/query.go:186-236 | a predicate is accepted if and only if the field is searchable, the compiler has a SQL test for the comparator on it, and the 1 to 100 values it compares with have 1 to 1024 characters and spell integers for a numeric field |
| Hunt.ArgumentsAreValues | internal/hunt/query.go:300-313 | **Main.** the arguments of an accepted expression are, from left to right, the values of its predicates: the integer a numeric value spells, otherwise the text |
| Hunt.TreeIs | internal/hunt/query.go:256-284 | the emitted tokens have a derivation in the SQL grammar that evaluates to the meaning of the expression |
| Hunt.HolesOfOr | internal/hunt/query.go:264-283 | placeholders counted in the text are those of the parsed clause |
| Hunt.CompilePreservesMeaning | internal/hunt/query.go:249-340 | **Main.** an accepted expression always compiles, to a clause with as many arguments as placeholders that, read with SQL precedence and arguments bound left to right, has the meaning of the tree on every row |
| Processor.WorkersFor | internal/ingest/processor.go:143-146 | the number of records, but at most 256, and at most the configured number or 64 when none is configured |
| Processor.StepKeepsInv | internal/ingest/processor.go:156-194 | every step of dispatcher and workers keeps each record in exactly one place and ties every early exit to a cause |
| Processor.NeverStuck | internal/ingest/processor.go:156-194 | until it returns, the pool has a step of its own: no deadlock |
| Processor.RunsAreBounded | internal/ingest/processor.go:156-194 | in any interleaving the number of steps is bounded by the initial rank |
| Processor.ProcessRecordsIsSafe | internal/ingest/processor.go:139-195 | **Main.** for any records, workers and interleaving: each record is handed out at most once, no deadlock, and success means every record was handled |
| Processor.ProcessRecordSettles | internal/ingest/processor.go:207-234 | a record that reports success is dead-lettered, or raw-persisted and ingested; nothing settled is undone |
| Processor.ActKeepsSafe | internal/ingest/processor.go:101-133 | every step of the surrounding loop, crash and replay included, keeps committed records settled |
| Processor.CommittedRecordsAreSettled | internal/ingest/processor.go:101-234 | **Main.** over all runs every committed record was dead-lettered or both raw-persisted and ingested |
| ProcessorRuns.ProcessRecordExactly | internal/ingest/processor.go:207-234 | one call stores, ingests or dead-letters its record exactly for the answers that call for it, changes no other record, and reports success exactly when it ingested or dead-lettered |
| ProcessorRuns.EffectsAreEarned | internal/ingest/processor.go:101-234 | **Main.** over every run with crashes in the middle of calls and replays: a record is raw-persisted, ingested or dead-lettered if and only if some call for it heard the answers that call for it |
| ProcessorRuns.RefusedOrIngested | internal/ingest/processor.go:211-226 | a record that never passed authentication is neither raw-persisted nor ingested, and one that no call dead-lettered is ingested before it is committed |
| ProcessorRuns.SucceedsExactly | internal/ingest/processor.go:156-194 | a block succeeds if and only if no record failed and the caller did not cancel before the return |
| ProcessorRuns.BlocksCanBeCommitted | internal/ingest/processor.go:101-194 | for every block and number of workers some run commits the whole block |
| IngestQuota.DayTtl | internal/ephemeral/valkey.go:257-261 | the lifetime reaches exactly 25 hours past the start of the day and always exceeds the one-minute floor |
| IngestQuota.Store.Reserve | internal/ephemeral/valkey.go:71-116 | the command-by-command script is the one atomic step the protocol is about, state and reply |
| IngestQuota.SecondCallNeverAsks | internal/ephemeral/valkey.go:72-76 | a call with a baseline never asks for bootstrap |
| IngestQuota.GrantRespectsLimits | internal/ephemeral/valkey.go:93-115 | after a grant no counter exceeds its positive limit, and the reply reports the counters |
| IngestQuota.ReserveExactly | internal/ephemeral/valkey.go:71-116 | **Main.** on the readings of the three counters: the baseline is asked for exactly when a day counter is missing and none was brought; otherwise the request is granted exactly when no positive limit would be exceeded, raising all three counters, and else denied with the first such limit, raising none |
| IngestQuota.ReserveKeepsOthers | internal/ephemeral/valkey.go:78-115 | no other key changes, and the lifetimes: renewed for the day keys by a grant, three seconds for a second key that had none |
| QuotaProtocol.Outlives | internal/ephemeral/valkey.go:257-261 | a lifetime written by an on-time call outlives the UTC day |
| QuotaProtocol.BalancedFirst | internal/ephemeral/valkey.go:71-115 | the first call with a baseline loads both counters once and adds its reservation |
| QuotaProtocol.BalancedAgain | internal/ephemeral/valkey.go:71-115 | later calls never load a baseline again and add exactly what they grant |
| QuotaProtocol.StepKeepsInv | internal/licensing/service.go:276-304 | every step of every gateway keeps all counters balanced and all callers within two calls |
| QuotaProtocol.QuotaIsConserved | internal/licensing/service.go:276-304 | **Main.** under any interleaving and lost replies each day counter, events and bytes, equals its baseline, loaded at most once, plus the granted reservations, and its key outlives the day; callers finish in at most two script calls |
| QuotaProtocol.AskingCanBeAnswered | internal/licensing/service.go:284-304 | whatever others have done, a gateway on time can get its grant or denial with one read of the usage at most |
| QuotaProtocol.ReserveIngestBatch | internal/licensing/service.go:284-304 | one caller's reserve, bootstrap, reserve sequence, with any change of the store in between |
| QuotaProtocol.PositiveLicenceIsEnforced | internal/licensing/service.go:322-331 | a positive licence gives a positive byte limit exactly from one byte on, never above the licence |
| QuotaProtocol.LicensedBytesExactly | internal/licensing/service.go:322-331 | the limit of a positive licence is the largest whole number of bytes within it and the integer range |
| QuotaProtocol.TinyLicenceIsUnlimited | internal/licensing/service.go:322-331 | a licence of a tenth of a byte gives no limit |
| DiskQueue.TotalAfterAdd | internal/agent/queue.go:176-177 | a new event file raises the true total by its size and the true count by one |
| DiskQueue.TotalAfterRemove | internal/agent/queue.go:220-234 | a removed event file lowers them by the same |
| DiskQueue.AcknowledgeKeepsAgreement | internal/agent/queue.go:220-238 | after an acknowledgement the totals agree with the directory, up to the recorded loss, if and only if a zero count comes with zero bytes, which is when the cache is kept |
| DiskQueue.AtMostOneUniqueFile | internal/agent/queue.go:114-137 | an event ID has at most one unique file |
| DiskQueue.Scan | internal/agent/queue.go:78-90 | the directory pass counts exactly the event files and their sizes, or fails |
| DiskQueue.DiskQueue.Measure | internal/agent/queue.go:73-95 | a re-scan restores exact totals; a failed one changes nothing |
| DiskQueue.DiskQueue.EnqueueLocked | internal/agent/queue.go:139-179 | the item is stored exactly when the occupancy is known, it fits the limit and the calls work; it is refused as full exactly when it does not fit; otherwise nothing changes |
| DiskQueue.DiskQueue.EnqueueUnique | internal/agent/queue.go:114-137 | success exactly when a readable file of this event ID exists under its derived name, or none exists and the item could be written within the limit; full exactly when it is absent and does not fit |
| DiskQueue.DiskQueue.Ack | internal/agent/queue.go:213-239 | success removes exactly the referenced file, lowers a positive count by one even if the file was gone, keeps the byte total exact and gives up the cache exactly when a size was unreadable or the bytes contradict the count; failure cases included |
| DiskQueue.DiskQueue.Depth | internal/agent/queue.go:270-277 | the reported bytes are the true total; the reported count is the true one if and only if a scan was due or no loss is open, with no empty files: no gone item was acknowledged at a positive count since the last scan |
| DiskQueue.Execute | internal/agent/queue.go:72-239 | **Main.** over every sequence of operations with any calls failing, a measured cache has the exact bytes, and the exact count if and only if no loss is open, with no empty files: if and only if no gone item was acknowledged at a positive count since the last scan; an occupancy within the limit stays within it |
| DiskQueue.AcknowledgeFirstTwice | internal/agent/queue.go:213-239 | for every n above one: the first of n items acknowledged twice leaves n - 1 files and a reported count of n - 2, or of 1 if n is two, where the cache is given up |
| AgentRuns.ParseDocument | internal/agent/windows_event.go:380-400 | delivered records are skipped, undecodable ones set aside, the others become events in order |
| AgentRuns.AboveHasNoGaps | internal/agent/windows_event.go:197-220 | a read is a gap-free stretch of the channel above the cursor |
| AgentRuns.CheckpointFile.EnsureCheckpoint | internal/agent/windows_event.go:222-251 | the initial cursor is stored once, a legacy one first, and never re-derived; it fails exactly when the stored one is unreadable or none can be resolved or written |
| AgentRuns.CheckpointFile.CommitEvent | internal/agent/windows_event.go:324-336 | the cursor moves forward to the event or stays; the empty cursor is refused |
| AgentRuns.CommitKeepsChannel | cmd/agent/main.go:205-222 | saving the cursor of the queued event extends the covered stretch without a gap |
| AgentRuns.StepKeepsInv | cmd/agent/main.go:187-222 | every step, wherever a crash may come, keeps all channels covered |
| AgentRuns.StepIsCareful | cmd/agent/main.go:405-412 | a checkpoint never moves back and an item leaves the queue only after the server accepted it |
| AgentRuns.NoTelemetryIsLost | cmd/agent/main.go:187-222 | **Main.** over every run with crashes at any step, each decodable record above the initial cursor and at or below the checkpoint is queued on disk or was accepted |
| AgentRuns.QueuedCanBeDelivered | cmd/agent/main.go:382-414 | from every state some run delivers any queued item: the server has its event and it alone has left the queue |
| AgentRuns.StallIsPermanent | internal/agent/windows_event.go:377-400 | a full read of undecodable records pins the checkpoint through every later run |
| AgentRuns.UnstalledAdvances | cmd/agent/main.go:187-222 | from any other reachable state some run with reads of that size raises the checkpoint |
| AgentRuns.WedgedExactly | internal/agent/windows_event.go:377-400 | **Main.** no run with reads of a given size ever raises the checkpoint if and only if a full read holds nothing decodable and no event of the channel is on its way |
| AgentRuns.WedgedIsReachable | internal/agent/windows_event.go:377-400 | for every read size a concrete run from the start ends in such a state |
| AgentDelivery.SelectBatch | cmd/agent/main.go:387-401 | the batch is the longest prefix within the byte limit; an item that can never fit is an error when it comes next |
| AgentDelivery.LongestFitIsUnique | cmd/agent/main.go:387-401 | the longest fitting prefix is unique |
| AgentDelivery.LocalQueue.Flush | cmd/agent/main.go:382-414 | what leaves the queue is a prefix the server accepted, and the rest keeps its order; with the longest fitting prefix, exactly what is accepted, what leaves and what is reported in every case |
| AgentDelivery.LocalQueue.Drain | cmd/agent/main.go:360-380 | **Main.** deliveries are consecutive prefixes; when all rounds are accepted and acknowledged and no item is too large it succeeds, and then every batch was full or the last one was the longest that fits; after a failure the queue is a suffix behind everything delivered; a short last batch left the queue empty exactly when the byte limit did not cut it |
| AgentDelivery.ShortBatchDrainsExactly | cmd/agent/main.go:372-375 | the exact condition under which a short batch means a drained queue |
| AgentDelivery.ShortBatchCanLeaveItems | cmd/agent/main.go:372-375 | two items of which the byte limit admits one: a short batch with an item left |
| SourceHealth.SourceTracker.ShouldAttempt | internal/agent/sourcehealth.go:89-97 | a source is due when it has no retry time or that time has come; asking declares it and changes nothing else |
| SourceHealth.SourceTracker.RecordSuccess | internal/agent/sourcehealth.go:101-118 | the whole new entry of the source, diagnostics included, other sources untouched |
| SourceHealth.SourceTracker.RecordFailure | internal/agent/sourcehealth.go:123-158 | the whole new entry, with the error text cut to 512, and the advice to the caller, other sources untouched |
| SourceHealth.OneMoreFailure | internal/agent/sourcehealth.go:138-157 | a due failure extends the streak and is logged exactly when it is among the first five |
| SourceHealth.StreakOfRun | internal/agent/sourcehealth.go:89-158 | after any run without success, the entry is that of a streak of the source's own failures, whatever other sources did |
| SourceHealth.FailuresAreSpread | internal/agent/sourcehealth.go:89-158 | **Main.** k >= 5 failures attempted only when due span at least 47 + 60(k-5) seconds |
| SourceHealth.FirstFiveAreLogged | internal/agent/sourcehealth.go:148-157 | exactly the first five failures of a streak are logged and the later ones counted as suppressed, and the next attempt follows after 2, 5, 10, 30 and then 60 seconds |
| SourceHealth.SuccessRestores | internal/agent/sourcehealth.go:99-118 | one success makes the next attempt due at once and restarts the schedule at its first step |
| SourceHealth.DueAgain | internal/agent/sourcehealth.go:89-97 | after a failure an attempt is due exactly from the announced time on |
| SourceHealth.HealthOfRun | internal/agent/sourcehealth.go:101-158 | after any run of reports about any sources: state, error text, times and the counts of failures, of failures since the last success and of events are those of the reports about the source |
| SourceHealth.SuppressedIsNeverReported | internal/agent/sourcehealth.go:146-157 | over any run no failure reports a number of suppressed ones other than zero |
| Syslog.ReadSyslogFrame | internal/collector/syslog.go:265-306 | one call consumes exactly the frame the decoding function defines, or fails with its error |
| Syslog.ReadCounted | internal/collector/syslog.go:270-296 | the byte-by-byte prefix loop with all its error cases |
| Syslog.CountedRoundTripsExactly | internal/collector/syslog.go:270-296 | an octet-counted payload survives if and only if its length is from 1 to the maximum and has at most nine digits |
| Syslog.TerminatedRoundTripsExactly | internal/collector/syslog.go:298-305 | an LF-terminated payload survives if and only if it fits, has no LF inside, no leading digit and no trailing CR |
| Syslog.FramesExactly | internal/collector/syslog.go:265-306 | **Main.** a call returns a frame if and only if the stream starts with it in one of the two framings: one to nine digits, a space and that many bytes up to the maximum, or a line of at most two bytes more without its CR and LF |
| Syslog.StreamRoundTrip | internal/collector/syslog.go:265-306 | **Main.** any mix of framable messages is decoded to exactly those payloads in order and the stream ends cleanly |
| FileTail.ResumeExactly | internal/collector/filetail.go:157-174 | a file is resumed where it was left exactly when it is still that long and, as far as both versions tell, starts with the same 64 bytes; otherwise from its start |
| FileTail.ResumeOfGrown | internal/collector/filetail.go:169-174 | a file that only grew resumes where it stopped |
| FileTail.PayloadsAppend | internal/collector/filetail.go:182-225 | the payloads of complete text followed by more are those of both parts |
| FileTail.FileTailer.PollSource | internal/collector/filetail.go:140-232 | a poll of any content passes exactly the lines its circumstances allow, enqueues the non-blank ones, ends as what stopped it says, and saves the offset past them unless it failed |
| FileTail.FileTailer.CommitCheckpoint | internal/collector/filetail.go:234-267 | the checkpoint in memory changes only when it was written |
| FileTail.PollKeepsSound | internal/collector/filetail.go:140-232 | after any poll of a grown file the enqueued payloads include every line below the offset, and equal them while no poll was aborted |
| FileTail.FileTailer.Poll | internal/collector/filetail.go:140-267 | **Main.** over all polls of a growing file: exactly once and in order without aborts, at least once with them; the offset moves by exactly what the poll passed, not at all if it failed |
| FileTail.MovesExactly | internal/collector/filetail.go:182-231 | **Main.** under some circumstances a poll moves the offset, if and only if a complete line comes next and the text is not blocked by a bad line |
| FileTail.BlockedStays | internal/collector/filetail.go:182-231 | whatever is appended, a blocked file stays blocked and no poll moves its offset |
| FileTail.PollRepeatedly | internal/collector/filetail.go:122-140 | through any number of polls of a growing file the offset never moves back, and that of a blocked file never moves |
| FileTail.NextLineIs | internal/collector/filetail.go:188-213 | a payload without LF, behind which anything may follow, is read as one blank, good or bad line |
| FileTail.RepeatGoodLine | internal/collector/filetail.go:182-231 | a good line in front of a bad one is enqueued once by every poll while the offset stays |
| FileTail.FileTailer.BoundaryExactly | internal/collector/filetail.go:157-168 | exactly when the saved offset is zero or just past an LF |
| FileTail.StartInsideLine | internal/collector/filetail.go:157-168 | tailing any file that does not end in LF from its end leaves the offset inside a line |
| RateLimit.IpRateLimiter.Allow | internal/httpapi/rate_limit.go:51-89 | a key with a live window is granted up to the limit and told when the window ends; a new key is refused exactly when live windows fill the table; no other client's grants change |
| RateLimit.NormalizeKeyExactly | internal/httpapi/rate_limit.go:51-56 | two keys share a window exactly when they are equal after trimming, a blank one counting as `unknown` |
| RateLimit.IpRateLimiter.Purge | internal/httpapi/rate_limit.go:66-72 | exactly the entries with a live window remain, unchanged |
| RateLimit.SpreadBoundsGrants | internal/httpapi/rate_limit.go:60-88 | grants of which any n+1 in a row span a window put at most n into any half-open window |
| RateLimit.GrantInWindow | internal/httpapi/rate_limit.go:86-88 | a grant within the running window keeps any 2 x limit grants in a row spread over a window |
| RateLimit.GrantOpensWindow | internal/httpapi/rate_limit.go:65-78 | so does a grant that opens a new window |
| RateLimit.IpRateLimiter.FewerThanTwiceTheLimit | internal/httpapi/rate_limit.go:51-89 | **Main.** over whole histories any half-open interval of one window length has at most 2 x limit - 1 grants of a key |
| RateLimit.ReachTheBound | internal/httpapi/rate_limit.go:51-89 | for every limit and window there is a run with 2 x limit - 1 grants of one key in one window length |

## Assumptions of the main theorems

- Correlation runs: one spec per (tenant, rule, version, group) key. Pruning and edge results assume
  that an observation is at most one timespan older than the newest record accepted for its key, the
  edge result also that the observed event keeps its time. For ordered rules, exactness, monotonicity and
  the edge result assume that no event is seen between two sightings of another, which is necessary for
  the first two; an event ID that determines its time is enough for all of it
  (`CorrelationRuns.OneTimeIsSteady`). That only the set of records matters needs nothing.
- Sigma: meaning is preserved for readable selection names, which is necessary. The results in terms
  of written words assume in addition that no selection is named like a keyword and that white space
  is of the kind the quantifier expression knows (blank, tab, line feed, form feed, carriage return).
- Quota: a gateway's clock, read when the reservation is built, and the store's clock when the script
  runs differ by at most one hour in total (ahead plus behind), which is the grace the 25-hour keys give.
- Rate limiter: the clock does not go backwards.
- Disk queue: nothing; that no event file is empty, as encoded items never are, gives the simpler condition
  for the count.
- File tailer: the polled file only grows. `PollSource` itself is specified for any content.

## Left out

- Correlation: string keys joined with 0x1e are tuples, so fields that contain that byte are outside the model.
- Correlation: `CorrelationGroup`, `CorrelationValue`, `ResetTenant`, context cancellation and the JSON fingerprint (an injective tuple here).
- Sigma: pattern matching covers the characters a pattern can hold, of which only `*` is special; letter case is folded for ASCII only.
- Sigma: YAML decoding, field lookup and value matching are parameters.
- Hunt: the field table, the metadata pattern, integer syntax and the database's `lowerUTF8` are parameters; `exists` is a property of row and field, so its typing on a numeric field is not modelled; a string's length is its number of characters.
- Hunt: cursors, time ranges and templates.
- Processor: Kafka, object store, parser, pipeline and dead-letter calls are atomic steps that succeed or fail; rebalancing is not modelled.
- IngestQuota: integers are unbounded; commands of the script on different keys are grouped by key, and argument validation is not repeated.
- QuotaProtocol.QuotaIsConserved: does not state conservation for the per-second counters, whose three-second keys expire; their limit is in IngestQuota.GrantRespectsLimits.
- Licensing: the analytics fallback at internal/licensing/service.go:305-319, licence lookup and module permissions.
- DiskQueue: item encoding, `OldestQueuedAt`, `Peek` and the temporary file; rename is atomic and generated queue IDs are new.
- AgentRuns: XML decoding, deciding the initial cursor, legacy checkpoint files, channels that are cleared or overwrite old records by retention, credentials and heartbeats; a flush sends any list of queued items, and which prefix it is stands in AgentDelivery.
- AgentDelivery: the time budget of a drain is the number of rounds it allows.
- SourceHealth: `Snapshot`, `Overall`, `DegradedSources` and the order of registration; the length of an error text is its number of characters.
- Syslog: datagrams, TLS, event construction and format detection; a connection is a byte sequence and the reader's position after an error is unspecified because the connection is closed then.
- FileTail: one source; symbolic-link and file-type checks, blankness and event validity are parameters or left out; the 64-byte prefix stands for its hash.
- RateLimit: the shared-store limiter and the HTTP handler around it.
- HTTP routing, authentication, storage back ends, parsers, reports and the console.
