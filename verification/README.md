# SQL gateway: a verified model

The gateway takes a query as text, redacts it for the log, validates it, hands it to PostgreSQL if
it is allowed, and records what happened; a live page mirrors the recorded entries. This project
models that pipeline in Dafny and proves what its parts, and the parts together, guarantee. Check it
with `dafny verify dfyconfig.toml`.

* **Scrubber** (`SyntaxTrees`, `SensitiveLiterals`, `LiteralReplacement`, `QueryScrubber`,
  `NonInterference`). A statement is a mutable arena of nodes with parent links and argument slots;
  a node's index stands for the identity of the Python object. The breadth-first queue, the marking
  loops over one shared set and the one-by-one in-place replacement are methods. The marked set is
  proved to be a declarative set, the in-place loop to be an exact replacement, and the emitted tree
  to be a function of the statement as a value, whatever its objects are, that depends on literal
  contents precisely when a literal serves as a target column's name.
* **Rules** (`PostgresRules`, `RuleRegistry`, `QueryValidator`). Six checks, the registry of rule
  classes with its instance cache, and the validator. Acceptance is characterised without walks or
  rules, for every registration history and every order of the rules.
* **Live stream** (`Mailboxes`, `Broadcast`, `DeliveryOrder`, `OverlappingRecords`, `InMemoryRecorder`,
  `EventStream`, `Numbers`, `Json`, `JsonReader`, `ServerSentEvents`, `ObservabilityPage`, `CardPositions`,
  `LateSnapshots`, `PageMirror`, `AddedCards`, `MirrorRuns`). Producers append under a lock and deliver
  outside it; loops run callbacks; bounded queues drop; a page replays a snapshot on every reconnect.
  `Broadcast` is a small-step system in which a step that is not possible changes nothing, so that every
  sequence of events is a run; `PageMirror` runs one page with any number of reconnects beside it. What the
  page shows is stated in history positions in `CardPositions`, and in `LateSnapshots` for a snapshot that
  came late; `AddedCards` follows what was ever put up; `MirrorRuns` exhibits runs. `InMemoryRecorder` and
  `EventStream` are the objects, proved against the step functions.
* **Pipeline** (`Messages`, `ObservabilityEntries`, `ObservabilitySinks`, `ExecuteQuery`, `Gateway`).
  Whole runs over arbitrary validators, answers of the data store and failing sinks; then runs of the
  assembled objects, with rules being registered and looked up between the requests.

## Where code and expectation differ

The model follows the code in each of these.

* The repository's README.md (line 192) promises `root_not_allowed` for `DROP TABLE users`. Both the
  root rule and the construct rule refuse such a statement, and rules register in the order of an
  unsorted directory walk; so the code may as well be `forbidden_construct`. `VerdictIgnoresOrderIff`
  says exactly when the order matters, `ForbiddenRootCodeDependsOnOrder` what it decides here.
* Replacing a node without a parent does nothing, so a statement whose root is a literal is emitted
  as it is: `OriginalLiteralsGoneIffRootIsNoLiteral`. The root rule keeps such statements from being
  executed, but a rejected one is logged with its literal.
* A literal in the place of a target column's name is read as that name, so its contents can decide
  what is marked: `NonInterferenceExactly` gives the exact condition.
* The validator skips empty statements, the scrubber parses the first one. An allowed text that
  starts with an empty statement is executed but logged as `<unparseable>`:
  `AllowedIsLoggedRedacted`.
* Delivery happens outside the lock, so overlapping `record` calls can reach a subscriber in swapped
  order: `OverlapCanReorder` is such a run. `StaysOrderedIff` says from which states on the order is
  sure to be kept, and `InOrderIffLeastFirst` which runs kept it.
* If more than 500 entries are recorded between subscribing and the snapshot, the stream goes on to
  deliver entries that the snapshot had left behind, and the page takes them for new. It ceases to
  mirror the history with the first of them and mirrors it again once the live entries have come past the
  snapshot (if so many cells do not parse that the page would still show the replay: once newer entries have
  filled the page): `PageMirrorsHistoryIff`, `MirrorFailsExactlyWhileCatchingUp`; `LateSnapshotBreaksMirror` is
  such a run. Exactly such entries are ever put up out of order: `AddedInOrderIff`.
* A cell that is a float NaN or infinity passes the coercion and is written as `NaN` or `Infinity`,
  which `JSON.parse` refuses, so the page silently shows no card for the entry (controller lines
  926-931): `EntryBackIff`, `PageMirrorsHistoryIff`; `UnparseableCellBreaksMirror` is such a run.
* A constraint value that contains a `)` is masked up to that character only: `ValueHiddenIff`.
* `rules_for("_shared_")` lists the shared rules twice: `SharedKeyAsDialect`.
* The compact first line exceeds a limit of 0 and negative ones: `CompactLength`; with a negative limit it
  need not even be idempotent: `CompactIdempotentIff`.

## Model

| member | source | states |
|---|---|---|
| SyntaxTrees.SyntaxTree.Walk | src/infrastructure/persistence/postgres/rules/no_forbidden_constructs_rule.py:46 | the queue loop yields the level order of the subtree |
| SyntaxTrees.WalkVisitsSubtreeOnce | src/infrastructure/persistence/postgres/rules/no_dangerous_functions_rule.py:55 | a walk visits a node and its descendants, each exactly once, and nothing else |
| SyntaxTrees.WalkFollowsItself | src/infrastructure/persistence/postgres/rules/no_forbidden_constructs_rule.py:46 | the walk is its start followed by the children of every visited node, in the order of the visits |
| SyntaxTrees.WalkGoesDown | src/infrastructure/persistence/postgres/rules/no_forbidden_constructs_rule.py:46 | no node is visited before one that lies less deep |
| SyntaxTrees.SyntaxTree.FindAll | src/infrastructure/persistence/sql/query_scrubber_adapter.py:83 | all nodes of one kind below a node, in walk order |
| SyntaxTrees.FoundMember | src/infrastructure/persistence/sql/query_scrubber_adapter.py:182 | the search finds a node if and only if it has the kind and lies in the subtree |
| SyntaxTrees.ArgMeaning | src/infrastructure/persistence/sql/query_scrubber_adapter.py:88-89 | looking up an argument yields the first child held under its key, and nothing exactly if there is none |
| SyntaxTrees.ArgsPosition | src/infrastructure/persistence/sql/query_scrubber_adapter.py:98-103 | the list held by an argument keeps the order of the children, so that positions of two lists can be compared |
| SyntaxTrees.NameMeaning | src/infrastructure/persistence/sql/query_scrubber_adapter.py:91-106 | a node's name is its own string, or for want of one that of the identifier, literal, variable, star or null that is its "this" |
| SyntaxTrees.SyntaxTree.Replace | src/infrastructure/persistence/sql/query_scrubber_adapter.py:204 | the replacement takes over slot, argument key and parent; without a parent nothing happens |
| SensitiveLiterals.LiteralMarker.CollectSensitiveLiteralIds | src/infrastructure/persistence/sql/query_scrubber_adapter.py:72-76 | the shared set ends up as exactly the declared set of sensitive literals |
| SensitiveLiterals.LiteralMarker.MarkUpdateSetAssignments | src/infrastructure/persistence/sql/query_scrubber_adapter.py:78-90 | adds what each equality of the walk contributes, and keeps what was marked before |
| SensitiveLiterals.LiteralMarker.MarkAssignment | src/infrastructure/persistence/sql/query_scrubber_adapter.py:84-114 | one SET item contributes the literals of a sensitive column's value, direct or by tuple position; comparisons contribute nothing |
| SensitiveLiterals.LiteralMarker.MarkPairs | src/infrastructure/persistence/sql/query_scrubber_adapter.py:107-114 | columns against values by position, also when the lists differ in length |
| SensitiveLiterals.LiteralMarker.MarkInsertValues | src/infrastructure/persistence/sql/query_scrubber_adapter.py:116-121 | adds what each INSERT of the walk contributes |
| SensitiveLiterals.LiteralMarker.MarkInsert | src/infrastructure/persistence/sql/query_scrubber_adapter.py:122-148 | one INSERT with a column list contributes the literals at its sensitive positions |
| SensitiveLiterals.LiteralMarker.NothingSensitive | src/infrastructure/persistence/sql/query_scrubber_adapter.py:133-134 | the early exit without sensitive columns loses nothing |
| SensitiveLiterals.LiteralMarker.MarkValuesClause | src/infrastructure/persistence/sql/query_scrubber_adapter.py:150-161 | every value tuple contributes by position; other rows do not |
| SensitiveLiterals.LiteralMarker.MarkByPosition | src/infrastructure/persistence/sql/query_scrubber_adapter.py:163-172 | projections, and the values of one tuple, contribute by position |
| SensitiveLiterals.LiteralMarker.MarkAllLiteralsIn | src/infrastructure/persistence/sql/query_scrubber_adapter.py:174-183 | exactly the literals at or below the node are added |
| SensitiveLiterals.CollectedMarksAreMarked | src/infrastructure/persistence/sql/query_scrubber_adapter.py:78-183 | a literal is collected if and only if it lies under a value that some UPDATE or INSERT anywhere in the statement stores in a sensitive column; visiting order does not matter |
| SensitiveLiterals.MarkedIffSecret | src/infrastructure/persistence/sql/query_scrubber_adapter.py:78-188 | a literal is marked if and only if it lies under a value stored in a column that is called, by a string of its own or of its "this", something the pattern finds |
| SensitiveLiterals.AssignedUnderName | src/infrastructure/persistence/sql/query_scrubber_adapter.py:84-97 | in an UPDATE anywhere, a literal under the value set for a column spelt by an identifier is marked if the pattern finds that non-empty identifier, and only if it does unless another column is given it too |
| SensitiveLiterals.TupleAssignedUnderName | src/infrastructure/persistence/sql/query_scrubber_adapter.py:99-114 | the same for a tuple of columns and a tuple of values, by position |
| SensitiveLiterals.InsertedUnderName | src/infrastructure/persistence/sql/query_scrubber_adapter.py:122-172 | the same for the listed columns of an INSERT, and the values of a row or the projections of a SELECT, by position |
| LiteralReplacement.ReplaceAllLiterals | src/infrastructure/persistence/sql/query_scrubber_adapter.py:190-204 | replacing one listed literal after the other in place yields the arena in which all are substituted at once |
| LiteralReplacement.ReplaceOne | src/infrastructure/persistence/sql/query_scrubber_adapter.py:196-204 | one iteration extends the substitution by the next literal |
| LiteralReplacement.SubstitutedValid | src/infrastructure/persistence/sql/query_scrubber_adapter.py:190-204 | the result is again a tree with consistent parent links |
| LiteralReplacement.WalkKeepsShape | src/infrastructure/persistence/sql/query_scrubber_adapter.py:190-204 | the walk over the result meets the same positions in the same order |
| QueryScrubber.SqlQueryScrubberAdapter.Scrub | src/infrastructure/persistence/sql/query_scrubber_adapter.py:52-70 | the text of the scrubbed tree, or the marker for payloads that are no text or do not parse to a first statement |
| QueryScrubber.ReplacementIsExact | src/infrastructure/persistence/sql/query_scrubber_adapter.py:195-204 | position by position: non-literals keep node, slot, holder and child order; the k-th literal of the walk becomes `[REDACTED:$k]` if it is stored under a sensitive name and placeholder k otherwise |
| QueryScrubber.NumberedByWalk | src/infrastructure/persistence/sql/query_scrubber_adapter.py:195-196 | a literal's number is one more than the count of literals before it on the walk |
| QueryScrubber.NumbersAreUsedOnce | src/infrastructure/persistence/sql/query_scrubber_adapter.py:196-203 | no two replacements carry the same number |
| QueryScrubber.OnlyMarkersRemain | src/infrastructure/persistence/sql/query_scrubber_adapter.py:195-204 | the literals left in the statement are exactly the markers of the marked ones |
| QueryScrubber.OriginalLiteralsGoneIffRootIsNoLiteral | src/infrastructure/persistence/sql/query_scrubber_adapter.py:195-204 | every original literal leaves the statement if and only if the root is not itself a literal |
| NonInterference.NonInterferenceExactly | src/infrastructure/persistence/sql/query_scrubber_adapter.py:64-68 | the emitted tree is the same for all statements of the same shape, whatever their objects and literal contents, if and only if no literal used as a target column's name governs a literal that is not a secret anyway |
| NonInterference.ProperNamesScrubAlike | src/infrastructure/persistence/sql/query_scrubber_adapter.py:64-68 | with proper column names, statements that are equal as values up to literal contents scrub to equal trees |
| NonInterference.IdentitiesDoNotMatter | src/infrastructure/persistence/sql/query_scrubber_adapter.py:73-76 | although marks are object identities, statements that are equal as values scrub to equal trees, without any condition on names |
| NonInterference.TwinsExist | src/infrastructure/persistence/sql/query_scrubber_adapter.py:64-68 | statements of the same shape differ by a renaming of their nodes, which can be undone |
| NonInterference.TwinLiterals | src/infrastructure/persistence/sql/query_scrubber_adapter.py:195-196 | literals at the same place of two such statements are met at the same point of the walk, and get the same number |
| PostgresRules.AllRulesMeanSafe | src/infrastructure/persistence/postgres/rules/bounded_write_rule.py:40-45 | all six checks pass if and only if the statement is a SELECT without INTO, an INSERT, an UPDATE or a DELETE and holds, anywhere, no further INSERT, UPDATE or DELETE, none of seven forbidden constructs and no call of a listed function; then every UPDATE and DELETE anywhere has a WHERE, although only the root's is looked at |
| PostgresRules.RootRuleExactly | src/infrastructure/persistence/postgres/rules/allowed_root_statement_rule.py:36-48 | a SELECT, INSERT, UPDATE or DELETE passes, any other root is refused by its class name |
| PostgresRules.WriteRuleExactly | src/infrastructure/persistence/postgres/rules/bounded_write_rule.py:35-45 | exactly an UPDATE or DELETE at the root without a child held as "where" is refused, as `unbounded_write` |
| PostgresRules.CteRuleExactly | src/infrastructure/persistence/postgres/rules/no_data_modifying_cte_rule.py:35-47 | exactly a statement with an INSERT, UPDATE or DELETE reachable below its root is refused, as `data_modifying_cte` |
| PostgresRules.ForbiddenRuleExactly | src/infrastructure/persistence/postgres/rules/no_forbidden_constructs_rule.py:35-51 | exactly a statement with one of the seven forbidden constructs anywhere is refused, as `forbidden_construct` |
| PostgresRules.IntoRuleExactly | src/infrastructure/persistence/postgres/rules/no_select_into_rule.py:35-40 | exactly a SELECT at the root with a child held as "into" is refused, as `select_into` |
| PostgresRules.DangerousRuleExactly | src/infrastructure/persistence/postgres/rules/no_dangerous_functions_rule.py:35-61 | exactly a statement that anywhere calls one of the functions that touch the server or leave the database, in any mixture of small and capital letters, is refused, and the detail is the name of such a call in small letters |
| PostgresRules.SafeSelectHoldsNoMutation | src/infrastructure/persistence/postgres/rules/no_data_modifying_cte_rule.py:41-47 | an accepted SELECT contains no INSERT, UPDATE or DELETE at all, and an accepted root is no literal |
| PostgresRules.SearchFindsNothing | src/infrastructure/persistence/postgres/rules/no_dangerous_functions_rule.py:54-61 | the walk finds no offender if and only if none is anywhere in the tree |
| PostgresRules.ForbiddenDetailIsFirst | src/infrastructure/persistence/postgres/rules/no_forbidden_constructs_rule.py:45-51 | the detail is the class name, written out for each of the seven, of the first forbidden construct in breadth-first order |
| PostgresRules.FirstWhereMeaning | src/infrastructure/persistence/postgres/rules/no_data_modifying_cte_rule.py:42-46 | the search with early return yields the first element that passes the test, and nothing only if none does |
| RuleRegistry.RuleRegistry.SqlRule | src/infrastructure/persistence/sql/rule_registry.py:46-58 | appends the class under each dialect, or under the shared key if none is named, and empties the cache |
| RuleRegistry.RuleRegistry.RulesFor | src/infrastructure/persistence/sql/rule_registry.py:61-67 | returns the cached objects, or makes and caches one for each applicable class |
| RuleRegistry.ClassesFollowHistory | src/infrastructure/persistence/sql/rule_registry.py:49-56 | after any interleaving of registrations and lookups the dictionary lists what the registrations say, in order |
| RuleRegistry.RunKeepsCacheCoherent | src/infrastructure/persistence/sql/rule_registry.py:42-67 | after any run every cached tuple agrees with the registered classes and holds distinct objects |
| RuleRegistry.LookupFollowsHistory | src/infrastructure/persistence/sql/rule_registry.py:61-67 | a lookup yields one object for each registration, shared ones first, then the dialect's own, each group in registration order |
| RuleRegistry.LookupsAreStable | src/infrastructure/persistence/sql/rule_registry.py:62-67 | two lookups with no registration between them return the same objects |
| RuleRegistry.SharedKeyAsDialect | src/infrastructure/persistence/sql/rule_registry.py:64-66 | the shared key asked for as a dialect lists the shared rules twice |
| QueryValidator.SqlQueryValidator.Validate | src/infrastructure/persistence/sql/query_validator.py:64-94 | the loop over the cached rules reports the first objection; all earlier exits have their codes |
| QueryValidator.FirstObjectionMeaning | src/infrastructure/persistence/sql/query_validator.py:88-94 | acceptance means that no rule objects; a rejection is the verdict of the first rule in order that does |
| QueryValidator.AcceptanceIgnoresOrder | src/infrastructure/persistence/sql/query_validator.py:88-94 | acceptance depends on the set of rules only |
| QueryValidator.AcceptanceShrinks | src/infrastructure/persistence/sql/query_validator.py:88-94 | more rules never accept more |
| QueryValidator.AllowedExactly | src/infrastructure/persistence/sql/query_validator.py:64-94 | with the six rules in any order, a payload is allowed if and only if it is a text, not blank, of whose parse exactly one position holds a statement, and that one is safe |
| QueryValidator.CodeTellsStage | src/infrastructure/persistence/sql/query_validator.py:65-86 | each code before the rules is reported if and only if that stage fails: `empty_query` iff the text is blank or every position of its parse is null, `multi_statement` iff two different positions hold statements; with their details |
| QueryValidator.NonNullCounts | src/infrastructure/persistence/sql/query_validator.py:80-86 | dropping nulls leaves none, one or several statements exactly if there were none, one or several, and leaves the one as it was |
| QueryValidator.BlankIffStripsToNothing | src/infrastructure/persistence/sql/query_validator.py:71 | a text is blank if and only if stripping leaves nothing of it |
| QueryValidator.VerdictIgnoresOrderIff | src/main.py:64-71 | the verdict is the same for every order of the rules if and only if all objecting rules object alike |
| QueryValidator.ForbiddenRootCodeDependsOnOrder | src/main.py:64-71 | for an otherwise harmless statement with a forbidden root, the order of two rules decides the code |
| Messages.CompactIsSingleSpaced | src/infrastructure/persistence/sql/query_validator.py:97-102 | the compact line has single spaces between words and none at its ends, also after the ellipsis cut |
| Messages.CompactStopsAtBreak | src/infrastructure/persistence/sql/query_validator.py:97-99 | whatever follows the first line break has no influence on the compact line |
| Messages.FirstLineMeaning | src/infrastructure/persistence/sql/query_validator.py:98 | the first line is what stands before the first line break |
| Messages.WordsSplit | src/infrastructure/persistence/sql/query_validator.py:99 | any white space character separates words, so that runs of it collapse |
| Messages.CompactCutsToLimit | src/infrastructure/persistence/sql/query_validator.py:100-102 | a longer line is cut to exactly the limit: its beginning, then the ellipsis |
| Messages.CompactKeepsWords | src/infrastructure/persistence/sql/query_validator.py:98-101 | a line that fits keeps exactly its words |
| Messages.CompactLength | src/infrastructure/persistence/sql/query_validator.py:97-102 | the limit is kept if and only if it is at least 1, or 0 with nothing to show |
| Messages.CompactIdempotentIff | src/infrastructure/persistence/sql/query_validator.py:97-102 | compacting twice is compacting once, for every limit of at least 0; for negative limits exactly if the collapsed line has at most 1 - limit characters |
| Messages.WordsOfJoin | src/infrastructure/persistence/sql/query_validator.py:99 | splitting undoes joining |
| Messages.SanitizedIsMasked | src/infrastructure/persistence/postgres/query_executor_adapter.py:152-158 | at most 200 characters, and every "=(" that has a later ")" is exactly "=(…)", after both passes, strip and cut |
| Messages.SanitizedShows | src/infrastructure/persistence/postgres/query_executor_adapter.py:152-158 | the sanitised message is what both passes leave, without white space at its ends, as far as 200 characters reach |
| Messages.QuotedIsHidden | src/infrastructure/persistence/postgres/query_executor_adapter.py:42-158 | of a message without closed values, with a quoted literal, the sanitiser shows the mask in place of the literal up to its closing quote |
| Messages.ValueThenQuotedHidden | src/infrastructure/persistence/postgres/query_executor_adapter.py:41-158 | of a closed constraint value followed by a quoted literal in one message it shows neither |
| Messages.QuotedThenValueHidden | src/infrastructure/persistence/postgres/query_executor_adapter.py:41-158 | nor in the other order |
| Messages.ValueHiddenIff | src/infrastructure/persistence/postgres/query_executor_adapter.py:41-155 | a constraint value is hidden as a whole if and only if it contains no ")" |
| Messages.QuotedKeepsMasked | src/infrastructure/persistence/postgres/query_executor_adapter.py:156 | the quote pass neither breaks a mask nor opens a new value |
| Messages.ConstraintValueMasked | src/infrastructure/persistence/postgres/query_executor_adapter.py:41-155 | the first closed value is masked up to its first parenthesis and the scan resumes behind it |
| Messages.QuoteEndMeaning | src/infrastructure/persistence/postgres/query_executor_adapter.py:42 | the body of a quoted literal ends at the first quote that no escape consumes; if the line has none, at its last quote; and the match fails exactly if the line has no quote |
| Messages.QuotedLiteralMasked | src/infrastructure/persistence/postgres/query_executor_adapter.py:42-156 | the first quote opens a literal exactly if the same quote comes again on its line; everything up to the one place that closes it is masked and the scan resumes behind it |
| Messages.MaskIdempotent | src/infrastructure/persistence/postgres/query_executor_adapter.py:155 | the first pass is idempotent |
| Messages.SanitizeKeepsClean | src/infrastructure/persistence/postgres/query_executor_adapter.py:152-158 | a short message with nothing to hide is left alone |
| Mailboxes.DeliverKeeps | src/infrastructure/observability/in_memory_observability_recorder_adapter.py:70-74 | a delivery adds its entry once: to the end of the line, or to the discarded ones if the loop is closed |
| Mailboxes.CallbackKeeps | src/infrastructure/observability/in_memory_observability_recorder_adapter.py:76-81 | a callback moves one entry to the queue or to the dropped ones and loses none |
| Mailboxes.CallbackLine | src/infrastructure/observability/in_memory_observability_recorder_adapter.py:76-81 | a callback leaves the order of the line alone, or, only on a full queue, cuts out its own entry |
| Mailboxes.WarnKeeps | src/infrastructure/observability/in_memory_observability_recorder_adapter.py:83-101 | a warning turns the whole pending count into a reported one, is given whenever it is due, and keeps its distance to the one before |
| Mailboxes.TakeKeeps | src/application/controllers/http/observability/observability_http_controller.py:84-87 | reading takes one entry if there is one, and leaves the line as it is |
| Broadcast.RunConserves | src/infrastructure/observability/in_memory_observability_recorder_adapter.py:70-81 | after every interleaving, what a subscriber's places hold together is exactly the history between its subscription and its end |
| Broadcast.ExactlyOnePlace | src/infrastructure/observability/in_memory_observability_recorder_adapter.py:115-139 | an entry is in exactly one place if appended during the subscription and nowhere otherwise; the queue holds at most 1000 |
| Broadcast.DropsAccounted | src/infrastructure/observability/in_memory_observability_recorder_adapter.py:76-101 | reported plus pending drops equal all drops; warnings are at least 30 seconds apart |
| Broadcast.HandoverHasNoGap | src/infrastructure/observability/in_memory_observability_recorder_adapter.py:115-139 | for a snapshot taken at any point of any run after subscribing: of the entries from the earlier start on, exactly those outside the snapshot that were lost are never offered, and exactly those of the overlap that were not lost are offered twice; lost means dropped, discarded, or not read before the loop closed or the subscription ended |
| Broadcast.LostForever | src/infrastructure/observability/in_memory_observability_recorder_adapter.py:70-81 | no continuation of a run brings a lost entry to the stream |
| Broadcast.ClosedLoopStands | src/infrastructure/observability/in_memory_observability_recorder_adapter.py:70-81 | a subscriber whose loop is closed stands still, however the run goes on: nothing is read, nothing runs, deliveries are discarded |
| Broadcast.UnsubscribedStays | src/infrastructure/observability/in_memory_observability_recorder_adapter.py:137-139 | an ended subscription reads nothing and is given nothing new to hold, however the run goes on |
| Broadcast.SubscribersAreIsolated | src/infrastructure/observability/in_memory_observability_recorder_adapter.py:118-120 | removing all other subscribers' steps from a run changes nothing for one subscriber |
| DeliveryOrder.ReceivedInOrder | src/infrastructure/observability/in_memory_observability_recorder_adapter.py:115-120 | with calls that do not overlap, consumed, queued and scheduled entries form an in-order part of the history since the subscription |
| DeliveryOrder.NothingMissingWithoutDrops | src/infrastructure/observability/in_memory_observability_recorder_adapter.py:115-120 | without drops that part has no gap, and on an open loop only held entries are still to come |
| OverlappingRecords.OverlapCanReorder | src/infrastructure/observability/in_memory_observability_recorder_adapter.py:116-120 | two overlapping calls that swap their entries |
| OverlappingRecords.InOrderIffLeastFirst | src/infrastructure/observability/in_memory_observability_recorder_adapter.py:115-120 | however calls overlap: a subscriber's line is in history order if each delivery to it hands over the least entry held for it, and once all is delivered without loss, only then |
| OverlappingRecords.StaysOrderedIff | src/infrastructure/observability/in_memory_observability_recorder_adapter.py:115-120 | on an open loop, every continuation without new overlaps keeps a subscription in order if and only if it is in order now and at most one entry, belonging behind the line, is held for it |
| InMemoryRecorder.Subscriber.Deliver | src/infrastructure/observability/in_memory_observability_recorder_adapter.py:70-74 | the object performs the delivery step |
| InMemoryRecorder.Subscriber.PutOrDrop | src/infrastructure/observability/in_memory_observability_recorder_adapter.py:76-81 | the object performs the bounded put, with its drop count |
| InMemoryRecorder.Subscriber.MaybeWarnAboutSlowConsumer | src/infrastructure/observability/in_memory_observability_recorder_adapter.py:83-101 | the object performs the throttled warning |
| InMemoryRecorder.InMemoryObservabilityRecorderAdapter.Record | src/infrastructure/observability/in_memory_observability_recorder_adapter.py:115-120 | the buffer stays the newest 500 of the history, and each subscriber gets exactly one delivery |
| InMemoryRecorder.InMemoryObservabilityRecorderAdapter.DeliverToAll | src/infrastructure/observability/in_memory_observability_recorder_adapter.py:119-120 | the loop over the copied set performs one delivery step on each of its members |
| InMemoryRecorder.InMemoryObservabilityRecorderAdapter.Snapshot | src/infrastructure/observability/in_memory_observability_recorder_adapter.py:122-124 | the newest 500 entries of the history, oldest first |
| InMemoryRecorder.InMemoryObservabilityRecorderAdapter.Subscribe | src/infrastructure/observability/in_memory_observability_recorder_adapter.py:126-134 | a new subscriber with an empty queue joins the others |
| InMemoryRecorder.InMemoryObservabilityRecorderAdapter.Unsubscribe | src/infrastructure/observability/in_memory_observability_recorder_adapter.py:137-139 | exactly this subscriber leaves |
| Basics.LastNSnoc | src/infrastructure/observability/in_memory_observability_recorder_adapter.py:109-117 | a buffer cut after every append holds the newest entries of the whole history |
| EventStream.EventGenerator.Open | src/application/controllers/http/observability/observability_http_controller.py:72-74 | subscribes before it takes the snapshot |
| EventStream.EventGenerator.Next | src/application/controllers/http/observability/observability_http_controller.py:72-93 | what was yielded so far carries the replayed snapshot, then what left the queue; a keepalive only on an idle queue; a disconnect ends the subscription |
| EventStream.EventGenerator.ReadQueue | src/application/controllers/http/observability/observability_http_controller.py:83-93 | one entry from the queue as an event, or a keepalive exactly when nothing came |
| ServerSentEvents.StreamRoundTrip | src/application/controllers/http/observability/observability_http_controller.py:77-107 | decoding the stream by section 9.2.6 of the WHATWG HTML Standard yields exactly the payloads, in order, with keepalives anywhere |
| ServerSentEvents.CutStreamDeliversPrefix | src/application/controllers/http/observability/observability_http_controller.py:80-93 | a connection cut at any character has delivered whole payloads without a gap |
| ServerSentEvents.EntriesRoundTrip | src/application/controllers/http/observability/observability_http_controller.py:91-107 | entry to JSON to event stream and back: the page reads every entry as it was recorded, in order, and nothing in place of those with a non-finite cell |
| Numbers.NumberBack | src/application/controllers/http/observability/observability_http_controller.py:106-107 | the text of an integer, or of a finite float with point or exponent wherever its shortest digits put it, is read by the grammar of section 6 of RFC 8259 as that number |
| JsonReader.PayloadBackIff | src/application/controllers/http/observability/observability_http_controller.py:106-107 | parsing the JSON text of a payload gives the payload if all its floats are finite, and fails otherwise |
| JsonReader.EntryBackIff | src/application/controllers/http/observability/observability_http_controller.py:926-931 | the page reads an entry back as recorded if and only if no sampled cell is a non-finite float; otherwise its text is refused |
| ObservabilityPage.LivePage.OnMessage | src/application/controllers/http/observability/observability_http_controller.py:926-931 | a text that does not parse leaves the page as it is, any other adds its entry |
| ObservabilityPage.ArrivalOfText | src/application/controllers/http/observability/observability_http_controller.py:926-931 | the text of a recorded entry adds that entry unless a sampled cell is a non-finite float |
| ObservabilityPage.LivePage.AddEntryToPage | src/application/controllers/http/observability/observability_http_controller.py:839-870 | the page's fields after an entry |
| ObservabilityPage.LivePage.EvictBeyondCap | src/application/controllers/http/observability/observability_http_controller.py:860-866 | the loop removes the oldest cards and their ids down to the cap |
| ObservabilityPage.SeenIdsAreTheIdsOnThePage | src/application/controllers/http/observability/observability_http_controller.py:839-866 | after any entries at all, the remembered ids are those of the cards, no id is shown twice, and at most 500 cards are shown |
| ObservabilityPage.CountersCoverEverything | src/application/controllers/http/observability/observability_http_controller.py:848-860 | the counters count every entry ever accepted by decision, evicted ones too, and fix the number of cards |
| PageMirror.PageMirrorsHistoryIff | src/application/controllers/http/observability/observability_http_controller.py:72-93 | across any number of reconnects, once a replay has been received the page shows exactly the newest 500 entries up to the position reached, newest first, if and only if each of them parses and the connection is not still catching up with a snapshot taken too late |
| PageMirror.MirrorFailsExactlyWhileCatchingUp | src/application/controllers/http/observability/observability_http_controller.py:73-93 | if all entries parse, the mirror fails exactly if more than 500 entries fell between subscribing and the snapshot, from the first live entry until the live entries reach the snapshot's end |
| MirrorRuns.LateSnapshotBreaksMirror | src/application/controllers/http/observability/observability_http_controller.py:73-93 | a run with 501 entries before the snapshot after which the page is no mirror |
| MirrorRuns.UnparseableCellBreaksMirror | src/application/controllers/http/observability/observability_http_controller.py:926-931 | a run with one entry, whose cell is NaN, after which the page is no mirror |
| PageMirror.PageKeepsIds | src/application/controllers/http/observability/observability_http_controller.py:839-866 | at every step of every run, with drops and at whatever point connections end, the remembered ids are those on the page, none is shown twice and the cap is kept |
| AddedCards.AddedInOrderIff | src/application/controllers/http/observability/observability_http_controller.py:839-866 | the positions of all entries ever put up, as many as the page counts, are increasing, so that none was put up twice, evicted ones included, if and only if at no time on any connection a live entry was put up that the snapshot had left behind while the snapshot had something to show |
| LateSnapshots.LateShowsNewestIff | src/application/controllers/http/observability/observability_http_controller.py:843-866 | at each point of catching up with a late snapshot, and after it, whichever entries parse: the page mirrors the history exactly if the newest entries parse and none that the snapshot had left behind still disturbs the order |
| PageMirror.ArrivalKnown | src/application/controllers/http/observability/observability_http_controller.py:73-93 | unless the connection is late, what arrives next is the next history position, or one the page still shows if it can |
| CardPositions.TrackedMirrorsIff | src/application/controllers/http/observability/observability_http_controller.py:857-866 | told everything from a snapshot on, the page mirrors the history exactly if the newest positions can all be shown |
| ObservabilityEntries.PayloadRoundTrip | src/core/ports/outbound/observability_entry_dto.py:46-70 | reading a payload back key by key gives the entry; reading the restricted one gives the entry without its result data |
| ObservabilityEntries.TextKeys | src/core/ports/outbound/observability_entry_dto.py:46-70 | the keys under which id, decision, text and time stand, and the three names of the decision |
| ObservabilityEntries.OptionalKeys | src/core/ports/outbound/observability_entry_dto.py:46-70 | the keys of rejection and error, there exactly if the entry has them |
| ObservabilityEntries.ResultKeys | src/core/ports/outbound/observability_entry_dto.py:46-70 | the keys of duration, counts and result data, there exactly if the entry has them |
| ObservabilityEntries.PoppedPresent | src/core/ports/outbound/observability_entry_dto.py:64-69 | popping a key from the filtered dictionary is the same as the field having been None |
| ObservabilityEntries.RestrictedViewIsBlind | src/core/ports/outbound/observability_entry_dto.py:63-70 | the payload without result data is the payload of the entry stripped of its result data |
| ObservabilitySinks.MultiSinkObservabilityRecorderAdapter.Record | src/infrastructure/observability/multi_sink_observability_recorder_adapter.py:58-66 | every recorder gets its attempt whatever the others do, and each failure is logged once |
| ObservabilitySinks.RaisesIffNothingWritten | src/infrastructure/observability/stdout_observability_recorder_adapter.py:51-55 | an attempt that raises has written nothing and any other has written the recorder's view; a file recorder without a path does nothing |
| ObservabilitySinks.SinksAreShielded | src/infrastructure/observability/multi_sink_observability_recorder_adapter.py:58-66 | after a run through the fan-out every sink is as if it had been given the entries alone |
| ObservabilitySinks.LogHoldsWhatDidNotFail | src/infrastructure/observability/multi_sink_observability_recorder_adapter.py:58-66 | a sink's log is extended by its views of exactly the entries on which that sink itself did not fail, in order |
| ObservabilitySinks.RestrictedSinksAreBlind | src/infrastructure/observability/stdout_observability_recorder_adapter.py:51-55 | stdout and the JSONL file behave the same, failures included, on entries that differ in result data only |
| ExecuteQuery.ExecuteQueryUseCase.Execute | src/application/use_cases/execute_query_use_case.py:59-88 | one request through scrubber, validator with its registry, data store and recorder: the new state of each, and the result |
| ExecuteQuery.RunIsSafe | src/application/use_cases/execute_query_use_case.py:59-167 | over any run: one entry and one result per request, in order, with the verdict, outcome, decision, duration and time stamp that are due; each entry tells what its caller was told, field by field, with the first rows up to the maximum; the data store got exactly the allowed requests |
| ExecuteQuery.LogsIgnoreResultData | src/core/ports/outbound/observability_entry_dto.py:63-70 | two runs whose outcomes differ only in cell values and column names leave the same stdout and JSONL logs, whichever writes fail |
| Gateway.Drive | src/application/use_cases/execute_query_use_case.py:59-88 | the objects, driven through any registrations, lookups and requests, go exactly through the states of the run |
| Gateway.CacheIsTransparent | src/infrastructure/persistence/sql/rule_registry.py:61-67 | at any point of a run a request is judged by exactly the rules registered before it, whatever the cache holds |
| Gateway.GatewayIsUseCase | src/application/use_cases/execute_query_use_case.py:59-88 | a run of the assembled gateway is a run of the use case whose validator changes with the registrations |
| Gateway.GatewayIsSafe | src/application/use_cases/execute_query_use_case.py:59-167 | every request of a run of the assembled gateway is answered and recorded with what is due by the rules in force at its time |
| Gateway.RegisteredRulesSuffice | src/main.py:60-71 | importing the six rule files in any order, among anything else, puts all six rules in force |
| Gateway.OnlySafeStatementsExecuted | src/application/use_cases/execute_query_use_case.py:64-73 | for any run in which the six rules are registered before the first request, with any registrations, of further rule classes too, and any lookups in between: whatever the data store was handed is one safe statement |
| Gateway.ExecutedIffPasses | src/application/use_cases/execute_query_use_case.py:64-73 | with the six rules registered, and any others, the next request is executed if and only if it is one statement that is safe and that no other registered rule objects to |
| Gateway.SafeStatementsPass | src/main.py:60-71 | without further rules that is every single safe statement |
| Gateway.AllowedIsLoggedRedacted | src/application/use_cases/execute_query_use_case.py:62-82 | the entry of an allowed request shows that very statement with every literal replaced, unless an empty statement came first |
| Gateway.LogIgnoresLiteralContents | src/application/use_cases/execute_query_use_case.py:62-82 | texts whose statements are equal as values up to literal contents, with proper column names, are logged alike |

## Left out

- SQL parsing and rendering: `parse` and the text generator are parameters; `parse_one` is the first
  statement of `parse` and fails when that is missing or null. Results about the scrubber are results
  about trees.
- Node classes with a `name` of their own (casts, qualified names): a node's name is its own string,
  or the string of the simple node under `this`.
- An equality in a SET list without a left or right operand: the parser always supplies both; here it
  contributes nothing.
- The numbering of arena nodes: ids grow from parent to child, which any finite tree allows.
- The sensitive-name pattern: an arbitrary test on names, never satisfied by the empty name.
- Lower-casing of function names beyond the letters A to Z and the Kelvin sign: no other character's
  lower case is an ASCII letter that a listed name could need.
- Event loops as such: each appears as the order of callbacks scheduled for one subscriber, and closes
  for that subscriber. Cancellation races inside the timed wait on the queue are not modelled.
- Partial writes to files or streams: an attempt to write appends one payload or nothing.
- PostgreSQL, transactions, timeouts, cell coercion and the health check: the executor answers
  arbitrarily, and differently each time.
- Clocks and rounding: durations and time stamps are readings passed in with a request. A float is given by the
  shortest decimal that denotes it, and is written as Python writes it; how that decimal is found, and the precision
  a browser loses on large integers, are not modelled.
- JsonReader.PayloadBackIff: keeps integers apart from floats, which a browser reads as the same kind of number.
- Text with unpaired surrogates: strings are sequences of Unicode scalar values.
- JSON beyond one object of strings, numbers, booleans, null and arrays: no entry contains any.
- UTF-8: the stream is modelled as characters; JSON text is escaped down to ASCII before it is encoded.
- HTTP routing, settings, dependency wiring and adapter discovery, apart from the unspecified import
  order of the rule files.
- The page apart from receiving entries and reconnecting: layout, filters, rendering of cards, which is
  taken to succeed for every entry.
- PageMirror.PageMirrorsHistoryIff: is about runs with distinct request ids, calls that do not overlap, no drops
  on the page's connections, and no connection that ended while it was still catching up with a late snapshot.
- AddedCards.AddedInOrderIff: is about the same runs.
- Messages.SanitizedIsMasked: makes no claim that the quote pass is idempotent; a lone quote before a quoted
  text is a counterexample.
- QueryScrubber.ReplacementIsExact: says nothing about scrubbing a scrubbed statement, whose remaining markers are
  numbered afresh.
