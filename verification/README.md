# Verified model of the workspace's stateful core

This project models the parts of the repository whose code does something
other than what it is for: a log redactor that decides byte by byte but must
agree with a redaction of the whole stream, a catalog migration that re-plans
while it changes the catalog, two rate limiters that must count alike, a
single-flight cache, a database trigger, a bounded history, two text scanners,
a multiset diff, an id format and a synchronisation loop. For each, a reference
says what the component is for, methods in the form of the source are proved to
compute it step by step, and lemmas prove what holds over every input and every
run.

| module | component | main results |
|---|---|---|
| `RedactingWriter` | Centrifugo log redactor | streaming equals one-shot redaction for every chunking, if and only if no secret goes on after a newline; which secrets can show in the output |
| `TenantIndexNames`, `TenantIndexTargets` | tenant index planner | preflight reports what reconciliation does; no shape is lost; exactly when one would be |
| `TenantIndexAgreement`, `TenantIndexOrder` | the planner's promises | exactly when preflight and reconciliation agree; a second run changes nothing; the order of targets does not matter |
| `TenantSchema`, `TenantRequests` | tenant schema index pass | after a pass that succeeds, a second one does nothing for any target; it issues no statement at all, if and only if no other requested name could be adopted or dropped |
| `RateLimitStore` (with `OrderedMaps`) | in-memory and PostgreSQL rate limiters | both answer as an unbounded counter; capacity, recency order; a tight admission bound and an exact `retryAfter`, for both stores |
| `AvatarUrlCache` | avatar signature cache | single flight, fixed deadlines, failures remove only themselves, at most 1024 entries |
| `ConnectionAlerts` | connection alert trigger | invariants of every reachable state; one notice per surfaced alert; one escalation per incident; exactly which notices a recovery leaves unread |
| `RefreshTokenRetention` | retired refresh tokens | what is stored and accepted after any run of rotations |
| `ApiDocsLexer` | API docs generator | lockstep of the two scanners; a split that rejoins |
| `TelegramReactions`, `TelegramThreads`, `Decimal` | Telegram adapter | exact and minimal diff; distinct event ids; round trips of thread ids |
| `SyncHelper` | entity synchronisation | for any lists, exactly when the store ends as the incoming items |

## What the proofs say about the comments

- **The window does not roll.** The source documents the length of a rolling
  window. Any interval one window long admits at most `2 * limit - 1` requests
  of a key, in both stores, and for every limit and window a run admits that
  many (`AtMostTwiceTheLimit`, `TwiceTheLimitLessOneIsReached`). At most `limit`
  in every such interval holds if and only if the limit is one
  (`RollingBoundIff`).
- **Why newlines are rejected.** The redactor flushes at newlines because
  `readSecret` accepts no secret that contains one. That much is needed but for
  the last byte: a newline there does no harm, one anywhere before it does, for
  some chunking (`StreamingIsOneShotIff`, `SplitAtNewlineLeaks`).
- **What is visible.** The marker and the bytes around it can spell a secret. A
  secret shows in the output only if, laid over the marker at some offset, it
  agrees with it (`VisibleMeetsMarker`). Without brackets it shows on some input
  exactly when the word inside the marker contains it
  (`BracketlessSecretVisibleIff`). Any secret that is the only one shows exactly
  when it agrees at an offset where its own bytes do not begin it too early
  (`LoneSecretVisibleIff`). For any list of secrets, finitely many inputs settle
  whether one of them can show (`VisibleOnShortInputIff`).
- **Only a pure duplicate is dropped.** The comment at
  `tenant-index-names.ts:561-566` takes the canonical relation to have the shape
  of the duplicate, but the code looks at its name alone. From a catalog where a
  canonical name has another shape, it drops the only index of the target's
  shape: `StepLosesShapeIff` gives the exact condition, and
  `AnyTargetCanLoseItsIndex` a catalog for each of the 21 targets and each wrong
  shape. The other theorems about passes therefore start from catalogs where a
  canonical name, where present, has its target's table, columns and uniqueness.
- **A preflight can disagree.** The same kind of catalog misleads it: where the
  canonical name of one target holds the index of an earlier one, preflight finds
  the former correct, and reconciliation, having renamed that index, creates it
  or is blocked (`PreflightMisleads`, `AnyTwoCanDisagree`). `AgreementIff` says
  exactly when they agree.
- **Idempotent and order-independent.** So it is, from every well-formed catalog,
  with tables missing and targets blocked or not (`SecondRunIsIdle`,
  `EndIsOrderIndependent`, `ReportIsOrderIndependent`).
- **Recovery closes the incident.** It leaves unread exactly the notices whose
  alert was withdrawn, archived, or given a new id by an escalation
  (`LeftUnreadIff`).
- **Passes can repeat.** An index that some other requested name holds, with a
  target's shape, may be renamed by the reconciler; the next pass then asks for
  the lost name again (`OtherNameIsLost`). `SecondPassIsSilentIff` says exactly
  when that cannot happen.
- **Synchronised means equal.** `syncEntities` leaves a differing row alone when
  `isUnchanged` says so, and with a repeated incoming id compares against a row
  that it has itself overwritten. `SyncedIsIncomingIff` says for all lists when
  the store ends as the incoming items: with an exact comparison, when no id is
  first changed and then brought back to the value it had
  (`SyncedByEqualityIff`, `RepeatedIdGoesStale`), and with distinct ids, when no
  differing item is skipped (`SyncedDistinctIff`).

## How the model is laid out

Time is a parameter of each call, in milliseconds. Outside input that the code
only receives is an argument: the rows of the catalog query in whatever order,
duplicate keys in the tenant's data, the recipients of an alert and the ids the
database generates, the chunk boundaries of a stream, the locked rows a cleanup
must skip. Runs are sequences of operations or events, so a lemma over all
sequences speaks of every interleaving. A `Map` of JavaScript iterates in
insertion order, which both LRU structures rely on; `OrderedMaps` models it.

The delivery worker for connection alerts is an environment: it may claim,
surface, send or remove alerts, and users may read or delete notices, at any
time between two updates.

## Model

| member | source | states |
|---|---|---|
| `RedactingWriter.StreamingIsOneShotIff` | infrastructure/centrifugo/entrypoint/main.go:31-108 | For a list of secrets, every split of every stream into writes and a close delivers the one-shot left-to-right, longest-first redaction of the whole stream, if and only if no secret has a newline before its last byte. |
| `RedactingWriter.StreamIsOneShot` | infrastructure/centrifugo/entrypoint/main.go:48-108 | The sufficient half, for one given chunking: the bytes flushed by all writes and the close are the redaction of the concatenated chunks. |
| `RedactingWriter.SplitAtNewlineLeaks` | infrastructure/centrifugo/entrypoint/main.go:70-75 | A secret with an inner newline, written in two chunks cut after it, is not delivered as its redaction. |
| `RedactingWriter.FlushedPlusTail` | infrastructure/centrifugo/entrypoint/main.go:48-57 | After any writes, what was flushed followed by the redaction of the held tail and of whatever comes next is the redaction of the whole stream. |
| `RedactingWriter.HeldTailIsShort` | infrastructure/centrifugo/entrypoint/main.go:66-79 | After a write the held tail has no newline and is shorter than the longest secret. |
| `RedactingWriter.MatchIsFinal` | infrastructure/centrifugo/entrypoint/main.go:68-75 | Where the held bytes are as long as the longest secret or reach a newline, the longest match at their head does not depend on what follows. |
| `RedactingWriter.ConsumeIsFinal` | infrastructure/centrifugo/entrypoint/main.go:81-97 | What a flush emits is a prefix of the redaction of the held bytes with any continuation, and the rest is the redaction of what it leaves. |
| `RedactingWriter.LiteralRunIsNoSecret` | infrastructure/centrifugo/entrypoint/main.go:83-97 | Consecutive literal bytes of the output never spell a secret. |
| `RedactingWriter.OccurrenceMeetsMarker` | infrastructure/centrifugo/entrypoint/main.go:83-97 | Any byte string in the output lies in a run of literal bytes or agrees with a marker where it overlaps it. |
| `RedactingWriter.VisibleMeetsMarker` | infrastructure/centrifugo/entrypoint/main.go:83-97 | No secret, with brackets or without, shows in the output unless at some offset it agrees with the marker. |
| `RedactingWriter.LoneSecretVisibleIff` | infrastructure/centrifugo/entrypoint/main.go:83-97 | Any secret that is the only one shows on some input if and only if at some offset it agrees with the marker, and its bytes before the marker, with itself after them, do not begin it earlier. |
| `RedactingWriter.VisibleOnShortInputIff` | infrastructure/centrifugo/entrypoint/main.go:81-97 | For any list of secrets, some input shows a given byte string in the output if and only if a short one does; the bound is its length times one more than the longest secret's. |
| `RedactingWriter.BracketlessSecretVisibleIff` | infrastructure/centrifugo/entrypoint/main.go:81-97 | Some input shows a bracketless secret in the output if and only if the word inside the marker contains it. |
| `RedactingWriter.LongSecretNeverVisible` | infrastructure/centrifugo/entrypoint/main.go:81-97 | A bracketless secret longer than eight bytes never occurs in the output. |
| `RedactingWriter.TokensCoverInput` | infrastructure/centrifugo/entrypoint/main.go:83-97 | The reference loses, adds and reorders nothing: its tokens spell the input and hide only secrets. |
| `RedactingWriter.FirstMatchIsLongest` | infrastructure/centrifugo/entrypoint/main.go:44-44 | Of secrets sorted by descending length, the first that matches is the longest that matches. |
| `RedactingWriter.Writer.constructor` | infrastructure/centrifugo/entrypoint/main.go:31-46 | Empty secrets are dropped, the rest sorted, the longest length recorded; the writer starts with nothing held or flushed. |
| `RedactingWriter.Writer.Write` | infrastructure/centrifugo/entrypoint/main.go:48-57 | Reports all bytes as written and takes one step of the specification, also after the destination has failed; then nothing more is delivered. |
| `RedactingWriter.Writer.Close` | infrastructure/centrifugo/entrypoint/main.go:59-64 | Flushes everything held and reports a failure exactly when the destination failed or took too little. |
| `RedactingWriter.Writer.Flush` | infrastructure/centrifugo/entrypoint/main.go:66-108 | Consumes whole tokens up to the limit and keeps the rest; a first failure or short write is remembered and stops delivery for good. |
| `RedactingWriter.Writer.Scan` | infrastructure/centrifugo/entrypoint/main.go:81-97 | The loop that appends to a buffer computes the recursive specification of consumption. |
| `RedactingWriter.Writer.MatchHere` | infrastructure/centrifugo/entrypoint/main.go:84-92 | The scan over the sorted secrets finds the longest match among the secrets as given. |
| `RedactingWriter.StreamAll` | infrastructure/centrifugo/entrypoint/main.go:48-108 | A whole run fails exactly when the destination broke; it delivers a prefix of the one-shot redaction, all of it when it does not fail. |
| `RedactingWriter.StreamToSound` | infrastructure/centrifugo/entrypoint/main.go:98-108 | To a destination that takes everything, every run delivers the whole one-shot redaction and reports no failure. |
| `TenantIndexNames.PlanHasKind` | packages/database/src/tenant-index-names.ts:543-613 | For any order of the existing indexes, the planner's kind of action is fixed by the catalog; it renames only an index of the target's shape, to the canonical name, preferring the historical one. |
| `TenantIndexNames.SkippedIff` | packages/database/src/tenant-index-names.ts:548-554 | A target is skipped if and only if its table is missing or one of its columns is. |
| `TenantIndexNames.KindMeans` | packages/database/src/tenant-index-names.ts:556-612 | What each other kind of plan says of the catalog and the data: the canonical name taken, the cut historical name holding the target's shape, an index of the shape, conflicting rows. |
| `TenantIndexNames.AddedIsSupported` | packages/database/src/tenant-index-names.ts:548-554 | Any index a step adds stands on a table and columns that exist. |
| `TenantIndexNames.RunAddsSupported` | packages/database/src/tenant-index-names.ts:630-694 | So does any index a whole reconciliation adds. |
| `TenantIndexNames.PlanOfOthersIsUnchanged` | packages/database/src/tenant-index-names.ts:543-613 | Acting on one target never changes the kind of plan of another, nor the set of indexes that plan may rename. |
| `TenantIndexNames.ActsKeepsCatalog` | packages/database/src/tenant-index-names.ts:643-691 | Carrying out a plan keeps the catalog well formed and every table, columns and uniqueness in it; a blocked target changes nothing. |
| `TenantIndexNames.ActedIsCorrect` | packages/database/src/tenant-index-names.ts:643-691 | A target that was renamed, created or freed of its duplicate is then planned as correct. |
| `TenantIndexNames.RunFollowsFirstPlan` | packages/database/src/tenant-index-names.ts:630-694 | At every point of a reconciliation the targets ahead are planned as in the first catalog, those behind are correct, and no shape of the first catalog is gone. |
| `TenantIndexNames.StepLosesShapeIff` | packages/database/src/tenant-index-names.ts:560-576 | Over any catalog, a step loses a shape if and only if it drops the historical duplicate while no other index, the canonical name included, has that shape. |
| `TenantIndexNames.StepFailsIff` | packages/database/src/tenant-index-names.ts:671-689 | Over any catalog, a planned statement fails if and only if it needs the canonical name and an index of another table has it. |
| `TenantIndexAgreement.AgreementIff` | packages/database/src/tenant-index-names.ts:534-542 | Where canonical names are on their tables: every run plans each target as preflight does, if and only if no earlier target's plan may take away a later one's canonical name. |
| `TenantIndexAgreement.WellFormedIsHonest` | packages/database/src/tenant-index-names.ts:534-542 | In a well-formed catalog none may. |
| `TenantIndexAgreement.HonestRun` | packages/database/src/tenant-index-names.ts:630-694 | While the targets passed could take no later name away, those ahead are planned as in the first catalog. |
| `TenantIndexAgreement.StepChangesPlanIff` | packages/database/src/tenant-index-names.ts:543-613 | Over any catalog, a step changes the kind of another target's plan if and only if it takes the canonical name by which that one passed for correct. |
| `TenantIndexAgreement.PreflightMisleads` | packages/database/src/tenant-index-names.ts:534-542 | For two targets of one table, a catalog in which preflight finds the second correct, and any step for the first leaves it to be created or blocked. |
| `TenantIndexTargets.AnyTwoCanDisagree` | packages/database/src/tenant-index-names.ts:534-542 | Such a catalog for any two of the 21 targets that share a table. |
| `TenantIndexOrder.SecondRunIsIdle` | packages/database/src/tenant-index-names.ts:615-629 | From any well-formed catalog, a second reconciliation over the same data changes nothing. |
| `TenantIndexOrder.PassedIsIdle` | packages/database/src/tenant-index-names.ts:615-629 | Once a run has passed a target, the target is correct, skipped or blocked. |
| `TenantIndexOrder.EndIsOrderIndependent` | packages/database/src/tenant-index-names.ts:615-629 | From any well-formed catalog, a reconciliation of permuted targets may end in exactly the same catalogs. |
| `TenantIndexOrder.StepsCommute` | packages/database/src/tenant-index-names.ts:643-691 | Two steps for different targets can be taken in either order, to the same catalog. |
| `TenantIndexOrder.ReportIsOrderIndependent` | packages/database/src/tenant-index-names.ts:643-691 | Each target is reported under the same kinds whatever the order. |
| `TenantIndexOrder.PreflightMeans` | packages/database/src/tenant-index-names.ts:829-854 | Of a target whose table and columns are there: in which list of the report and the preflight it stands, in terms of the catalog and the data alone. |
| `TenantIndexOrder.MissingIsSkipped` | packages/database/src/tenant-index-names.ts:548-554 | A target whose table or column is missing is listed as skipped and nowhere else. |
| `TenantIndexOrder.PlannedInOrder` | packages/database/src/tenant-index-names.ts:643-691 | Each list names its targets in their order and none twice. |
| `TenantIndexOrder.ActsAsDelta` | packages/database/src/tenant-index-names.ts:643-691 | What a step takes out of the catalog and puts into it. |
| `TenantIndexNames.WrongShapeCostsTheIndex` | packages/database/src/tenant-index-names.ts:560-576 | Where a canonical name holds another shape and the historical name the target's, every reconciliation of the target drops its only index. |
| `TenantIndexTargets.AnyTargetCanLoseItsIndex` | packages/database/src/tenant-index-names.ts:560-576 | That is so for each of the 21 targets, every tenant schema and every wrong shape on the table. |
| `TenantIndexNames.ActsRemovesOnlyRemovable` | packages/database/src/tenant-index-names.ts:567-592 | A step takes a name away only as the historical name of its target, or by adopting it for want of both other names. |
| `TenantIndexNames.ActRemoving` | packages/database/src/tenant-index-names.ts:578-592 | And such a name is taken away for some order of the existing indexes. |
| `TenantIndexNames.TenantIndexes.LoadExistingIndexes` | packages/database/src/tenant-index-names.ts:293-321 | Returns exactly the indexes of one table, each once, in some order. |
| `TenantIndexNames.TenantIndexes.ReconcileTarget` | packages/database/src/tenant-index-names.ts:643-691 | Decides one target and carries the decision out; no statement fails from a well-formed catalog. |
| `TenantIndexNames.TenantIndexes.ReconcileTenantIndexNames` | packages/database/src/tenant-index-names.ts:630-694 | The report lists what the catalog before the first change calls for, in target order, and every shape is still there afterwards. |
| `TenantIndexNames.TenantIndexes.PreflightTenantIndexNames` | packages/database/src/tenant-index-names.ts:814-860 | Reports the renames, creations, drops and blockers that the present catalog calls for, changing nothing. |
| `TenantIndexNames.PreflightSchemas` | packages/database/src/tenant-index-names.ts:814-860 | The report over several schemas has one row per schema, each what that schema's catalog calls for. |
| `TenantIndexNames.TenantIndexes.PreflightThenReconcile` | packages/database/src/tenant-index-names.ts:814-860 | What preflight announces is what reconciliation then does, list by list. |
| `TenantIndexTargets.TargetsAreSeparate` | packages/database/src/tenant-index-names.ts:64-249 | The 21 targets differ pairwise in canonical name, historical name and what they index. |
| `TenantIndexTargets.CanonicalNamesFit` | packages/database/src/tenant-index-names.ts:20-34 | Canonical names of tenant schemas are never truncated. |
| `TenantIndexTargets.LabelNamesCollide` | packages/database/src/tenant-index-names.ts:265-273 | The historical names of the two label targets truncate to one identifier. |
| `TenantSchema.OwnNameResolves` | packages/database/src/tenant-schema.ts:956-968 | A target's historical name resolves to that target, though truncated names may coincide. |
| `TenantSchema.RequestDoes` | packages/database/src/tenant-schema.ts:956-978 | One request in full: which known names satisfy it, which name it creates, when the create fails, and what it leaves. |
| `TenantSchema.EnsureFailsIff` | packages/database/src/tenant-schema.ts:970-978 | The requests fail if and only if one of them, when reached, is satisfied by no known name, has a free name to create, is unique and meets conflicting rows. |
| `TenantSchema.CreatedWithoutConflict` | packages/database/src/tenant-schema.ts:970-978 | No index comes from a unique request whose rows conflict. |
| `TenantSchema.HistoricalSatisfies` | packages/database/src/tenant-schema.ts:951-955 | A target whose index stands under the cut historical name gets no create. |
| `TenantSchema.EnsureIndexes` | packages/database/src/tenant-schema.ts:970-978 | The loop over the requests, with its set of known names, computes the folded specification. |
| `TenantSchema.EnsureKeepsCatalog` | packages/database/src/tenant-schema.ts:970-978 | Requests keep the catalog well formed, keep the set of known names equal to its names, and remove or change no index. |
| `TenantSchema.IndexPass` | packages/database/src/tenant-schema.ts:2126-2129 | A pass fails exactly if a create fails or a target is blocked, and otherwise reports what the requests issued and the reconciler did; after a failed create the reconciler is not run. |
| `TenantSchema.RunSettles` | packages/database/src/tenant-schema.ts:2126-2129 | A reconciliation that blocks nothing leaves every target under its canonical name with no historical duplicate. |
| `TenantSchema.SecondPassIsQuiet` | packages/database/src/tenant-schema.ts:956-978 | After a pass that succeeded, a second one creates, renames and drops nothing for any target, over any later data. |
| `TenantSchema.SecondPassIsSilent` | packages/database/src/tenant-schema.ts:956-978 | If no other requested name can be adopted or dropped for a target, the requests of the second pass issue nothing at all. |
| `TenantSchema.SecondPassIsSilentIff` | packages/database/src/tenant-schema.ts:956-978 | Over all orders in which indexes may be read, that is so if and only if no other requested name can be adopted or dropped. |
| `TenantSchema.ApartBeforeStay` | packages/database/src/tenant-schema.ts:956-978 | Enough for that, before the first pass: no index under another requested name has a target's shape. |
| `TenantSchema.RunThatRemoves` | packages/database/src/tenant-index-names.ts:587-592 | A name that some target's plan may take away is gone at the end of some reconciliation. |
| `TenantSchema.RunKeepsUnremovable` | packages/database/src/tenant-index-names.ts:630-694 | Any other name is still there at the end of every reconciliation, with what it indexes. |
| `TenantSchema.PassTwice` | packages/database/src/tenant-schema.ts:956-978 | Two passes in a row: if the first succeeds, the second does nothing for any target; if the other names stay, it succeeds and issues no statement. |
| `TenantRequests.SourceRequestsAreGood` | packages/database/src/tenant-schema.ts:1055-2109 | The requests the schema code makes meet the conditions of the theorems about passes: a historical name asks for its own target, and no other request has a target's name or shape. |
| `TenantRequests.MigrateTenantIndexes` | packages/database/src/tenant-index-names.ts:630-694 | For the 21 targets: preflight announces what reconciliation does, and no shape is lost. |
| `TenantRequests.ReconcileTenantSchemaTwice` | packages/database/src/tenant-schema.ts:956-978 | For the source's own requests and targets: two passes in a row, as above; that the second is silent can also be told from the catalog before the first. |
| `TenantRequests.OtherNameIsLost` | packages/database/src/tenant-index-names.ts:587-592 | For each other requested name and each target, a catalog from which a later pass issues a create again. |
| `RateLimitStore.MemoryRateLimitStore.constructor` | apps/api/src/lib/rate-limit-store.ts:147-150 | The store starts as the empty run. |
| `RateLimitStore.MemoryRateLimitStore.Increment` | apps/api/src/lib/rate-limit-store.ts:155-203 | One increment, with its branches for new, expired and running counters, is one step of the bounded specification. |
| `RateLimitStore.MemoryRateLimitStore.EvictIfNeeded` | apps/api/src/lib/rate-limit-store.ts:236-242 | The eviction loop drops exactly the oldest keys beyond the capacity. |
| `RateLimitStore.MemoryRateLimitStore.Reset` | apps/api/src/lib/rate-limit-store.ts:208-210 | Removes one key and keeps the order of the others. |
| `RateLimitStore.MemoryRateLimitStore.Clear` | apps/api/src/lib/rate-limit-store.ts:215-217 | Removes every key. |
| `RateLimitStore.MemRunBounded` | apps/api/src/lib/rate-limit-store.ts:236-242 | No run ever leaves more than `maxItems` keys. |
| `RateLimitStore.IterationIsRecency` | apps/api/src/lib/rate-limit-store.ts:140-143 | The store iterates in order of last use, and every key it no longer holds was last used before every key it holds. |
| `RateLimitStore.StoreTracksReference` | apps/api/src/lib/rate-limit-store.ts:155-242 | While a key is not crowded out, the store holds it if and only if the reference does, with the same counter. |
| `RateLimitStore.MemoryAnswersLikeReference` | apps/api/src/lib/rate-limit-store.ts:155-242 | If fewer than `maxItems` other keys are used between consecutive uses of a key, its answers are those of an unbounded limiter. |
| `RateLimitStore.CountIsUsesInWindow` | apps/api/src/lib/rate-limit-store.ts:173-185 | The counter of a key is the number of its uses since its window started, capped one above the limit, and its last use lies in that window. |
| `RateLimitStore.AtMostTwiceTheLimit` | apps/api/src/lib/rate-limit-store.ts:155-203 | Any half-open interval one window long admits at most twice the limit less one. |
| `RateLimitStore.TwiceTheLimitLessOneIsReached` | apps/api/src/lib/rate-limit-store.ts:176-184 | For every limit and window, a run that reaches that bound. |
| `RateLimitStore.RollingBoundIff` | apps/api/src/lib/rate-limit-store.ts:87-100 | At most `limit` requests in every interval one window long, if and only if the limit is one. |
| `RateLimitStore.RetryAfterIsExact` | apps/api/src/lib/rate-limit-store.ts:192-203 | `retryAfter` lies between 1 and the window, and for a denied request it is the least number of whole seconds after which the next one is admitted. |
| `RateLimitStore.AnswerTellsWindow` | apps/api/src/lib/rate-limit-store.ts:192-202 | Every field of an answer, by the end of its window: the limit asked for, the capped number of requests in the window, the decision, the reset time rounded down, the waiting time rounded up. |
| `RateLimitStore.LaterRequestContinues` | apps/api/src/lib/rate-limit-store.ts:173-185 | A later request starts over exactly at or after that end, and is counted in the window before. |
| `RateLimitStore.RefusedIff` | apps/api/src/lib/rate-limit-store.ts:160-160 | Both stores refuse exactly the limits and windows that are not positive or too large, and then change nothing. |
| `RateLimitStore.PostgresRateLimitStore.Increment` | apps/api/src/lib/rate-limit-store.ts:295-364 | One upsert and its answer are one step of the row specification. |
| `RateLimitStore.PostgresRateLimitStore.Reset` | apps/api/src/lib/rate-limit-store.ts:377-381 | Deletes one row. |
| `RateLimitStore.PostgresRateLimitStore.Clear` | apps/api/src/lib/rate-limit-store.ts:390-392 | Deletes all rows. |
| `RateLimitStore.PostgresRateLimitStore.CleanupExpiredBuckets` | apps/api/src/lib/rate-limit-store.ts:402-419 | Deletes the oldest expired rows that are not locked, up to a batch, and fewer only when no other is left; returns their number. |
| `RateLimitStore.RowsRepresentCounters` | apps/api/src/lib/rate-limit-store.ts:304-343 | After any run, each row is the reference's counter with its expiry, and a counter without a row has expired. |
| `RateLimitStore.PostgresAnswersLikeReference` | apps/api/src/lib/rate-limit-store.ts:295-364 | With one window per key the shared store gives the reference's decision, count and `retryAfter`, for any timestamps while nothing is cleaned up, and with any cleanups in between under a clock that never decreases. |
| `RateLimitStore.MemoryAdmitsAtMost` | apps/api/src/lib/rate-limit-store.ts:155-242 | The in-memory store keeps the admission bound for a key that is not crowded out. |
| `RateLimitStore.MemoryRetryAfterIsExact` | apps/api/src/lib/rate-limit-store.ts:192-203 | And its `retryAfter` is exact. |
| `RateLimitStore.MemoryTellsWindow` | apps/api/src/lib/rate-limit-store.ts:192-202 | The in-memory store's answers tell the end of the window, with the reset time rounded down. |
| `RateLimitStore.PostgresAdmitsAtMost` | apps/api/src/lib/rate-limit-store.ts:295-364 | The shared store keeps the admission bound, whatever is cleaned up in between. |
| `RateLimitStore.PostgresRetryAfterIsExact` | apps/api/src/lib/rate-limit-store.ts:336-343 | And its `retryAfter` is exact. |
| `RateLimitStore.PostgresTellsWindow` | apps/api/src/lib/rate-limit-store.ts:336-364 | The shared store's answers tell the same, with the reset time rounded up. |
| `OrderedMaps.TouchKeepsOrder` | apps/api/src/lib/rate-limit-store.ts:187-189 | Touching a key puts it last, keeps the others in their order, and drops only keys that precede all others that stay. |
| `OrderedMaps.TouchKeeps` | apps/api/src/lib/rate-limit-store.ts:187-189 | Touching one key leaves another with its value until as many keys follow it as the map may hold. |
| `OrderedMaps.TouchedIsLast` | apps/api/src/lib/rate-limit-store.ts:187-189 | A touched key is the last one, with its new value. |
| `AvatarUrlCache.ReuseMs` | apps/api/src/lib/avatar-url-cache.ts:17-20 | At most a minute, always the margin short of the signature's lifetime and exactly so when below a minute, and zero exactly for lifetimes within the margin. |
| `AvatarUrlCache.AvatarUrlSigner.constructor` | apps/api/src/lib/avatar-url-cache.ts:10-24 | The signer starts as the empty run. |
| `AvatarUrlCache.AvatarUrlSigner.Call` | apps/api/src/lib/avatar-url-cache.ts:26-49 | A call, with its deletions, reinsertion and eviction, is one call step. |
| `AvatarUrlCache.AvatarUrlSigner.Settle` | apps/api/src/lib/avatar-url-cache.ts:37-43 | A completion is one settle step; a failure deletes only an entry that still holds this promise. |
| `AvatarUrlCache.RunIsSound` | apps/api/src/lib/avatar-url-cache.ts:26-49 | In every run: at most 1024 entries, each for a promise of its key that has not failed, with a deadline fixed when it was started. |
| `AvatarUrlCache.CallReturnsUsablePromise` | apps/api/src/lib/avatar-url-cache.ts:26-49 | Any call returns a promise for its own key that has not failed, started now or less than the reuse time ago; hits never move the deadline. |
| `AvatarUrlCache.CallStartsAtMostOne` | apps/api/src/lib/avatar-url-cache.ts:26-48 | A call starts a signing exactly when no entry of its key is fresh, and then one. |
| `AvatarUrlCache.NothingHeldWithoutReuse` | apps/api/src/lib/avatar-url-cache.ts:27-27 | Without a reuse time nothing is ever held. |
| `AvatarUrlCache.SettlesOnce` | apps/api/src/lib/avatar-url-cache.ts:37-43 | A promise settles once, as the signing ended; no other promise changes, and a success touches no entry. |
| `AvatarUrlCache.FailureRemovesOnlyItself` | apps/api/src/lib/avatar-url-cache.ts:39-43 | A failure, however late, removes its own entry and no other, and keeps their order. |
| `AvatarUrlCache.EntryIsKept` | apps/api/src/lib/avatar-url-cache.ts:31-35 | An entry that is fresh, has not failed and is not crowded out is still held, with its deadline, after any events. |
| `AvatarUrlCache.SharedWhileFresh` | apps/api/src/lib/avatar-url-cache.ts:26-49 | Single flight: for that long, later calls for the key return the same promise and start no other. |
| `ConnectionAlerts.TenantDatabase.UpdateAndQueueAlert` | packages/database/src/connection-alert-schema.ts:40-101 | The trigger, statement by statement, takes the database to the specified next state. |
| `ConnectionAlerts.TenantDatabase.CloseSurfaced` | packages/database/src/connection-alert-schema.ts:48-53 | Row by row: the notices that carry a surfaced alert's id are read, earlier reading times kept. |
| `ConnectionAlerts.TenantDatabase.InsertReconnected` | packages/database/src/connection-alert-schema.ts:55-73 | Row by row: one notice per surfaced alert. |
| `ConnectionAlerts.TenantDatabase.DeleteAlerts` | packages/database/src/connection-alert-schema.ts:76-76 | Row by row: the connection's alerts and no others. |
| `ConnectionAlerts.TenantDatabase.UpsertAlerts` | packages/database/src/connection-alert-schema.ts:86-99 | Recipient by recipient: insert, escalate with the id trigger, or leave alone, in any order. |
| `ConnectionAlerts.AlertAfterUpdate` | packages/database/src/connection-alert-schema.ts:76-99 | What an update does to each alert: removed, created, escalated under a fresh id with attempts zero and sent, surfaced and message id cleared, or untouched in every field. |
| `ConnectionAlerts.OneNoticePerSurfacedAlert` | packages/database/src/connection-alert-schema.ts:55-73 | A recovery adds exactly one reconnected notice per surfaced alert of the connection and no other notice. |
| `ConnectionAlerts.RecoveryReadsOwnNotices` | packages/database/src/connection-alert-schema.ts:48-53 | A recovery marks as read exactly the notices with a surfaced alert's id, keeps earlier reading times and changes no other notice. |
| `ConnectionAlerts.QuietRecovery` | packages/database/src/connection-alert-schema.ts:35-38 | An incident that heals before an alert surfaced leaves the notification history as it was. |
| `ConnectionAlerts.OnlyRecoveryTouchesHistory` | packages/database/src/connection-alert-schema.ts:44-78 | Any update that is no recovery, an archive included, leaves the notification history as it was. |
| `ConnectionAlerts.NoCompanyNoNotice` | packages/database/src/connection-alert-schema.ts:70-73 | Without a company row no notice is added. |
| `ConnectionAlerts.UpdateSetsRow` | packages/database/src/connection-alert-schema.ts:104-109 | The update sets its own connection's row and no other. |
| `ConnectionAlerts.StepKeepsInv` | packages/database/src/connection-alert-schema.ts:43-101 | Every update and every step of the worker and the users keeps the invariant. |
| `ConnectionAlerts.ReachableInv` | packages/database/src/connection-alert-schema.ts:31-38 | In every reachable state a connected or archived connection has no alerts, ids are unique, and no alert has two reconnected notices. |
| `ConnectionAlerts.IncidentStep` | packages/database/src/connection-alert-message-id-schema.ts:22-35 | One step keeps an alert's id, kind and time, or escalates it from disconnected to logged out under an id never used before. |
| `ConnectionAlerts.KindMovesOnce` | packages/database/src/connection-alert-schema.ts:95-99 | Over any stretch of a run in which an alert lives, it escalates at most once and otherwise keeps id, kind and time. |
| `ConnectionAlerts.LeftUnreadIff` | packages/database/src/connection-alert-schema.ts:35-38 | Over any run, an unread notice of a recovering connection's incidents stays unread if and only if an earlier step withdrew its alert, archived the connection, or escalated the alert to a new id. |
| `ConnectionAlerts.NoticeTraced` | packages/database/src/connection-alert-schema.ts:48-53 | At any point of a run, an incident's notice has its alert there, is read, or was orphaned by such a step. |
| `RefreshTokenRetention.PruneRetiredRefreshTokens` | apps/api/src/lib/refresh-token-retention.ts:82-87 | The filter loop keeps exactly the entries whose deadline is ahead, as the specification of pruning does. |
| `RefreshTokenRetention.PruneKeepsExactlyTheLive` | apps/api/src/lib/refresh-token-retention.ts:82-87 | Pruning keeps exactly the entries whose deadline is ahead. |
| `RefreshTokenRetention.RetainSupersededRefreshToken` | apps/api/src/lib/refresh-token-retention.ts:113-128 | One rotation: without grace exactly the entries whose deadline is ahead; with grace the new entry last, at most five, and the others among those. |
| `RefreshTokenRetention.PruneIsFilter` | apps/api/src/lib/refresh-token-retention.ts:82-87 | Pruning keeps the order and how often each live entry stands. |
| `RefreshTokenRetention.NoGraceOnlyExpires` | apps/api/src/lib/refresh-token-retention.ts:108-120 | A rotation without grace retires nothing and drops exactly what has expired. |
| `RefreshTokenRetention.GraceAppends` | apps/api/src/lib/refresh-token-retention.ts:119-127 | A rotation with grace appends its hash and gives up a live entry only beyond five. |
| `RefreshTokenRetention.NoGraceKeepsAccepted` | apps/api/src/lib/refresh-token-retention.ts:108-111 | After any run, a rotation without grace changes no answer about a hash from then on. |
| `RefreshTokenRetention.StoredIsLastFiveAlive` | apps/api/src/lib/refresh-token-retention.ts:113-128 | With rotation times in order and one positive grace, the stored list is the last five retirements still alive. |
| `RefreshTokenRetention.AcceptedIffAmongLastFive` | apps/api/src/lib/refresh-token-retention.ts:90-99 | Then a hash is accepted at a later time if and only if it is among the last five retirements and before its own deadline. |
| `RefreshTokenRetention.StoredIsBoundedHistory` | apps/api/src/lib/refresh-token-retention.ts:101-128 | For any clocks and graces: at most five entries, a subsequence of the retirements, those of a positive grace, with their original deadlines. |
| `ApiDocsLexer.Skip` | scripts/generate-api-docs.py:189-210 | The skipping branches, which look one character ahead, follow an automaton that does not; they skip no bracket or comma of plain code. |
| `ApiDocsLexer.MatchingParen` | scripts/generate-api-docs.py:180-218 | Returns the first closing parenthesis in code that brings the depth to zero, and fails exactly when there is none. |
| `ApiDocsLexer.SplitArgs` | scripts/generate-api-docs.py:221-249 | Returns the stripped non-empty pieces of the text cut at its top-level commas. |
| `ApiDocsLexer.StripIsTrimmed` | scripts/generate-api-docs.py:246-248 | A stripped piece is a slice of it, with only whitespace around it and none at its ends. |
| `ApiDocsLexer.DropEmpty` | scripts/generate-api-docs.py:249-249 | Keeps the non-empty pieces in order. |
| `ApiDocsLexer.ArgumentsAreFilledPieces` | scripts/generate-api-docs.py:246-249 | The arguments are exactly the pieces that are not blank, in order, without the whitespace around them. |
| `ApiDocsLexer.TopCommaIff` | scripts/generate-api-docs.py:243-245 | A comma splits if and only if it is code and as many brackets of each of the three kinds were opened as closed in code before it. |
| `ApiDocsLexer.ClosesIff` | scripts/generate-api-docs.py:211-216 | A parenthesis ends the call if and only if it is code and, with it, as many were closed as opened in code. |
| `ApiDocsLexer.StringLasts` | scripts/generate-api-docs.py:196-210 | Each of the three quotes in code opens a string that lasts until the same quote comes unescaped. |
| `ApiDocsLexer.LineCommentLasts` | scripts/generate-api-docs.py:189-205 | Two slashes in code open a comment that lasts to the end of the line. |
| `ApiDocsLexer.BlockCommentLasts` | scripts/generate-api-docs.py:192-208 | A slash and a star in code open a comment that lasts until a star and a slash. |
| `ApiDocsLexer.CodeGoesOn` | scripts/generate-api-docs.py:203-216 | Any other character in code is followed by code. |
| `ApiDocsLexer.PiecesRejoin` | scripts/generate-api-docs.py:245-248 | Up to any position, the pieces joined with commas are the text, and the joining commas stand where the top-level commas were. |
| `ApiDocsLexer.SplitIsFaithful` | scripts/generate-api-docs.py:221-249 | The pieces rejoin to the whole text, and the split positions are exactly the commas outside strings, comments and brackets. |
| `ApiDocsLexer.SameModeInside` | scripts/generate-api-docs.py:288-291 | The text inside a call, scanned alone, is read in the same modes as within the file. |
| `ApiDocsLexer.SameDepthInside` | scripts/generate-api-docs.py:288-291 | And at the same bracket depths, one parenthesis less. |
| `ApiDocsLexer.ArgumentsEndInPlainCode` | scripts/generate-api-docs.py:288-291 | The splitter reaches the end of a call in plain code at parenthesis depth zero, and was never below zero. |
| `ApiDocsLexer.ReadCall` | scripts/generate-api-docs.py:288-291 | Chained, the two scanners return the pieces between a call's parenthesis and the first one that closes it. |
| `TelegramReactions.NormalizeReaction` | packages/adapter-telegram/src/normalize.ts:233-298 | Fails exactly on an invalid id, user, chat, actor, date or reaction, in that order, and otherwise returns the reference events and then one numbered event per change. |
| `TelegramReactions.ReactionCounts` | packages/adapter-telegram/src/normalize.ts:558-567 | Counts every key as the multiset of keys does, or fails with the first unreadable reaction's error. |
| `TelegramReactions.AllReactionDescriptors` | packages/adapter-telegram/src/normalize.ts:569-578 | Keys in order of first appearance, each with its last reaction. |
| `TelegramReactions.EmitChanges` | packages/adapter-telegram/src/normalize.ts:262-296 | The nested loops emit exactly the events of the changes between the two counts. |
| `TelegramReactions.PushEvents` | packages/adapter-telegram/src/normalize.ts:266-295 | For one key, as many events as its count changed by, with consecutive ordinals. |
| `TelegramReactions.KeysAreInjective` | packages/adapter-telegram/src/normalize.ts:528-548 | A key stands for one reaction only. |
| `TelegramReactions.ChangesAreExactAndMinimal` | packages/adapter-telegram/src/normalize.ts:262-296 | Folding the changes over the old reactions gives exactly the new ones; their number is the L1 distance, and no other changes that do so are fewer. |
| `TelegramReactions.NoShorterChanges` | packages/adapter-telegram/src/normalize.ts:268-268 | Any changes from one multiset to another are at least as many as their distance. |
| `TelegramReactions.EventsCarryChanges` | packages/adapter-telegram/src/normalize.ts:269-291 | From each event its kind and key can be read back, so the events say what the changes say. |
| `TelegramReactions.EventShowsReaction` | packages/adapter-telegram/src/normalize.ts:269-279 | Each reaction event shows the text of the reaction its key stands for, in the scope of its thread. |
| `TelegramReactions.ReactionIdsTellApart` | packages/adapter-telegram/src/normalize.ts:275-275 | Equal external reaction ids mean the same reactor, message and reaction. |
| `TelegramReactions.ReactorsTellApart` | packages/adapter-telegram/src/normalize.ts:243-248 | Equal reactors mean the same user, or without a user the same chat. |
| `TelegramReactions.ShownAlikeIff` | packages/adapter-telegram/src/normalize.ts:550-556 | Two reactions are shown alike if and only if they are equal or an emoji's text is that of a custom or paid one. |
| `TelegramReactions.ChangesAreOfReactions` | packages/adapter-telegram/src/normalize.ts:251-266 | The changes start from how often each old reaction stands and end at how often each new one does. |
| `TelegramReactions.ReferenceEventsTell` | packages/adapter-telegram/src/normalize.ts:300-343 | The two events before them name the reactor and a thread id that parses back to the chat and thread. |
| `TelegramReactions.RefusedIff` | packages/adapter-telegram/src/normalize.ts:623-638 | An update goes through if and only if its numbers, user, chats, actor, date and reactions are in order, each spelled out. |
| `TelegramReactions.FirstErrorIsTold` | packages/adapter-telegram/src/normalize.ts:238-252 | Of several errors the first in the order of the checks is told. |
| `TelegramReactions.DescriptorsInOrder` | packages/adapter-telegram/src/normalize.ts:569-578 | The descriptors come in the order in which their keys first appear. |
| `TelegramReactions.ChangesInOrder` | packages/adapter-telegram/src/normalize.ts:262-296 | The changes come key by key in that order. |
| `TelegramReactions.EventIdsAreDistinct` | packages/adapter-telegram/src/normalize.ts:282-282 | All event ids of one update, reference events included, differ. |
| `TelegramThreads.ParseOfPrinted` | packages/adapter-telegram/src/transport.ts:81-93 | Parsing a printed thread id gives back its chat and thread. |
| `TelegramThreads.ThreadIdsAreDistinct` | packages/adapter-telegram/src/normalize.ts:345-354 | Different chats or threads have different thread ids and message identity scopes. |
| `TelegramThreads.MatchParses` | packages/adapter-telegram/src/transport.ts:85-92 | Every id the pattern describes parses, to its chat text and the number of its thread. |
| `TelegramThreads.ParseMatches` | packages/adapter-telegram/src/transport.ts:85-92 | Every id that parses is one the pattern describes. |
| `TelegramThreads.PrintOfParsedIff` | packages/adapter-telegram/src/transport.ts:85-92 | Printing a parsed id gives it back if and only if its thread has no leading zero. |
| `Decimal.ValueOfDigits` | packages/adapter-telegram/src/transport.ts:91-91 | Reading a printed number gives it back. |
| `Decimal.TextInjective` | packages/adapter-telegram/src/normalize.ts:350-350 | Different numbers print differently. |
| `Decimal.TextReadsBack` | packages/adapter-telegram/src/normalize.ts:350-350 | A number is printed as its digits, after a minus sign exactly when it is negative. |
| `SyncHelper.SyncEntities` | apps/api/src/lib/sync-helper.ts:79-137 | The loops leave the specified store and return the specified counts. |
| `SyncHelper.InsertOrUpdate` | apps/api/src/lib/sync-helper.ts:100-119 | Upserts the incoming items in order, skipping unchanged ones against the rows as first read, and counts both kinds. |
| `SyncHelper.RemoveGone` | apps/api/src/lib/sync-helper.ts:121-129 | Removes exactly the existing ids that are not incoming, and counts the items. |
| `SyncHelper.UpsertedAt` | apps/api/src/lib/sync-helper.ts:100-119 | What any incoming list leaves under an id: the last item not skipped against the row as first read, else the row. |
| `SyncHelper.SyncedIsIncomingIff` | apps/api/src/lib/sync-helper.ts:100-129 | For any lists, the store ends as exactly the incoming items if and only if for each id on both sides that is the last item's value. |
| `SyncHelper.SyncedByEqualityIff` | apps/api/src/lib/sync-helper.ts:105-113 | With an exact comparison: if and only if no id is first changed and then brought back to its row's value. |
| `SyncHelper.SyncedDistinctIff` | apps/api/src/lib/sync-helper.ts:105-113 | With distinct incoming ids: if and only if no item is skipped that differs from its row. |
| `SyncHelper.RepeatedIdGoesStale` | apps/api/src/lib/sync-helper.ts:107-109 | With a repeated incoming id the store can end on a stale value although only equal rows are skipped. |
| `SyncHelper.CountsBalance` | apps/api/src/lib/sync-helper.ts:131-136 | With distinct ids on each side, existing plus added minus removed is incoming. |
| `SyncHelper.AnswerCounts` | apps/api/src/lib/sync-helper.ts:131-136 | For any lists: `added` counts the positions with a new id, `updated` those whose item differs from the row, `removed` the existing positions that are not incoming, and with those skipped the first two are all. |
| `SyncHelper.UpdatedIsChangedIds` | apps/api/src/lib/sync-helper.ts:105-113 | With distinct incoming ids, `updated` is the number of ids on both sides whose item is not skipped. |

## Left out

Rate limiting
- The Redis store, whose get and increment are separate steps; timers, health checks, closing, connection handling and the coalescing of cleanups already in flight.
- PostgreSQL timestamps have microseconds; the model counts milliseconds in both stores. `resetAt` is modelled in both and kept out of their agreement, as one store rounds it down and the other up.

Tenant indexes
- SQL text, locks, and whether a drop goes through the index or its constraint; index predicates and expressions, row estimates and samples of conflicting rows. Conflicting data is a set of targets fixed during a pass.
- `dropLegacyLabelUniqueIndex`, the indexes of `ensureChannelSpineTenantSchema` (none has a target's name or shape), the other statements between the requests, and names of relations that are not indexes.
- TenantIndexAgreement.AgreementIff: for catalogs whose canonical names are on their own tables; elsewhere a statement can fail, as `StepFailsIff` says, and the reconciliation stops there.
- TenantIndexNames.TenantIndexes.PreflightTenantIndexNames: the row of one schema, without the estimated row counts of the tables to index and the samples of conflicting rows.
- TenantIndexNames.PreflightSchemas: the loop over schemas, of such rows.

Connection alerts
- Connections and users being deleted with their alerts, the texts of notices, and which members are recipients; the worker's own decisions, which are steps that may happen at any time.
- ConnectionAlerts.RecoveryReadsOwnNotices: about one step; `LeftUnreadIff` says which notices of a run it does not reach.
- ConnectionAlerts.LeftUnreadIff: notices that a user deleted are not part of it.
- ConnectionAlerts.OneNoticePerSurfacedAlert: a schema without a company row gets no reconnected notices; the lemma is about schemas with one.

Redactor
- The child process, signals, environment and reading of secret files; the mutex, each method being one step; which of several secrets of equal length the sort puts first, as at most one of them can match at a place. A destination is told apart only by whether it takes everything or may fail at some write.

Avatar signatures
- The signing call itself; a rejection and its handler are one step, as is a call with the start of its signing.

Refresh tokens
- Reading the stored JSON and its dates; deadlines are milliseconds.

Documentation generator
- The regular expressions that find calls, imports and routers. The branches that both scanners share are one method here.

Telegram
- Fractional dates, names and other optional strings of users and chats, contract assertions on events, other kinds of updates and the remaining fields of a conversation.
- TelegramThreads.ParseOfPrinted: thread numbers are exact; the source reads them as floating point, which rounds above 2^53.

Synchronisation
- SyncHelper.SyncEntities: callbacks are operations on a store with keys that starts as the existing items; a missing `isUnchanged` is one that is never true, and existing items are objects, so a found one is never falsy.

Everything else in the repository: HTTP handlers, queues, tokens and signatures, templates and the user interface.
