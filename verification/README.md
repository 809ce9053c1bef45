# Lensically: models and proofs of its protocols and data transformations

This project models the parts of the Lensically workers where a mistake would be silent: the git commit
protocol of the recovery worker and the chunked write sessions that end in it, the commercial download
ledger, the canonical serializer with its evidence stripping and fingerprint, the history pages and their
cursor, the mandatory recovery map with its ranking, the numbered batch parser and its date arithmetic, and
the cache of schema checks. `dafny verify dfyconfig.toml` checks everything.

Whatever runs concurrently in the source is a state machine here, and the theorems speak of every run of
it; whatever the source updates in place is a class whose methods are proved against the functions the
theorems are about.

- `Prelude`, `JsText`: options; JavaScript strings as UTF-16 code units, trimming, digits, joining, and lists
  without repeats.
- `GitObjects`, `CommitProtocol`, `CommitTheorems`: commits, and any number of calls of
  `commitRepoFileViaGitData` interleaved with each other, with foreign fast-forward pushes, with late
  arrivals and with lost replies. A replayed commit object is equal to the first, as in git.
- `WriteSessions`: sessions that collect chunks and end in one commit call of the protocol, with whatever others do
  to the repository in between.
- `Ledger`, `LedgerTheorems`, `LedgerRuns`: the order and token tables, issue and serve requests interleaved
  statement by statement, any of which may stop for good at any point.
- `Delivery`: one issue or serve request from beginning to end over the two tables, as a run of the ledger, and what
  a buyer gets from it (`IssueGives`, `ServeCounts`, `IssuedTokenServesOnce`).
- `Json`, `Canonical`, `CanonicalTheorems`, `Evidence`, `Fingerprint`: JSON values and the `stable` printer,
  compacting and stripping, and the hash.
- `Utf8`, `Base64`: the encodings used for file content and tokens.
- `Cursor`, `Keyset`, `Pagination`, `PaginationTheorems`: the cursor's text, keyset pagination over any strict
  order, and the history pages as one instance of it.
- `Ranking`, `RankingTheorems`, `TokenLaws`, `Permits`, `RecoveryMap`, `RecoveryTheorems`, `RecoveryInterleaved`: scores as exact
  numbers, the choice of a tool, tokens, names and keys spelled out, the permits that can be signed, and the records of entries, stale paths and
  incidents, under a driver that alternates prepare and finalize and under one that lets executions overlap.
- `BatchPosts`, `BatchPostTheorems`, `BatchPostPrinting`, `Calendar`, `CalendarTheorems`: the batch parser and
  the date arithmetic.
- `IntegrityKeys`, `IntegrityCache`, `IntegrityTheorems`: the schema check's cache.

## What turned out otherwise

Some properties one would expect fail. Each is stated with the condition under which it holds, and where a run
shows the failure, with that run.

- An update labelled `update_ref_unchanged` or `update_ref_conflicted` can still land afterwards, exactly while
  the server has not handled it and the head is the one that was read (`CommitTheorems.LateLandingExactly`).
- Create mode overwrites a file that cannot be reached or that is blank
  (`WriteSessions.CreateOverwritesExactly`), and a retry after an unnoticed landing makes a second commit for any
  new file that cannot be reached, for a replacement in which a lone surrogate was replaced, and for few others
  (`WriteSessions.RetryAfterLanding`, `RetryAfterLateLanding`).
- Content with a lone surrogate is not stored unchanged (`GitObjects.BlobKeepsExactly`).
- A cleanup that overtakes a serve in flight costs it the token, because the serve consumes with the time of its
  start: exactly when the token is unused and expires in a later second than the start and in no later one than
  the cleanup (`LedgerRuns.CleanupCostsExactly`, `TokenLostExactly`, and a run in `CleanupCanOvertakeAServe`).
  Whole-second comparison also loses a token exactly in the last second of its life (`LedgerRuns.LastSecondIsLost`).
- Compacting twice is compacting with the smaller bound only if neither bound is negative, since `slice`
  counts a negative end from the back (`Evidence.CompactComposesExactly`).
- A text that begins with a byte order mark, or in which a surrogate stands alone, does not survive base64
  (`Base64.TextRoundTripExactly`).
- A next cursor longer than the decoder accepts restarts the walk (`PaginationTheorems.RefusedCursorRestarts`).
- A run of the innovation rail whose sort key rises between two reads is missed exactly if it rises from below a
  page's last row to that row or above (`PaginationTheorems.RisingRowMissedExactly`, and a run in
  `RisingKeyIsMissed`).
- A permit lasts thirty minutes, an incident thirty days: a discovery can go on for the thirty days only if a failed
  try renews the permit every thirty minutes (`RecoveryTheorems.DiscoveryOpenExactly`, `RenewalsReach`).
- A permit is signed only if each unit of its intent is a byte or a lone surrogate. Any other intent, say with an en
  dash or an arrow, makes the call throw after its records are written, and its incident is never promoted
  (`Permits.PermitEncodableExactly`, `RecoveryTheorems.UnsignableNeverPromoted`, and a case in `ArrowGetsNoPermit`).
- The permit of a failed known path is refused for that same intent, too, if cutting the intent to 8000 characters
  left white space at its end (`RecoveryTheorems.FailureOpensDiscoveryExactly`).
- When executions overlap, an incident can be promoted again exactly while a second discovery of it is still to be
  finalized (`RecoveryInterleaved.PromotedAgainExactly`, and a case in `OnePermitCanPromoteTwice`).
- Parsing one batch after another is parsing each, unless a carriage return at the joint hides a marker
  (`BatchPostTheorems.PlainConcatenationExactly`).
- Adding days composes exactly while the date in between has a four-digit year
  (`CalendarTheorems.ShiftsAddUpExactly`).
- Expectations with an invalid column name can share a cache key with valid ones, so a call is answered as a direct
  check would answer it exactly if its own identifiers and those of the check it joined are both valid or both not
  (`IntegrityTheorems.CachedVerdictExactly`, and a run in `InvalidNameCanPass`).

## Model

| member | source | states |
|---|---|---|
| `GitObjects.FastForwardIsCompareAndSwap` | lensically-recovery-worker/src/index.ts:279-289 | a commit whose one parent is the head that was read is accepted without force only if that head is still the head, or the commit already is |
| `CommitProtocol.RunKeepsInv` | lensically-recovery-worker/src/index.ts:243-298 | over every run: moves form a chain from the root to the head, each move by a call goes from the head it read to what it built, and every claimed commit has been a head |
| `CommitTheorems.OkCommitStaysOnBranch` | lensically-recovery-worker/src/index.ts:285-296 | a commit returned with ok moved the branch, stays an ancestor of the head in every continuation, and stays the call's answer |
| `CommitTheorems.OneCommitPerHead` | lensically-recovery-worker/src/index.ts:246-290 | of all calls that read one head, those accepted or answered ok stand for one and the same commit |
| `CommitTheorems.BranchIsReplayOfLandedEdits` | lensically-recovery-worker/src/index.ts:243-298 | the branch's file map is the replay of the landed one-path edits in the order their updates took effect |
| `CommitTheorems.OkCallIsOneReplayedEdit` | lensically-recovery-worker/src/index.ts:267-296 | each ok call is one move of that replay, leaving the files before it with the call's path replaced |
| `CommitTheorems.EarlyFailureNeverMoves` | lensically-recovery-worker/src/index.ts:246-283 | a call that failed before the ref update never moves the branch, then or later |
| `CommitTheorems.ReconcileVerdict` | lensically-recovery-worker/src/index.ts:292-297 | at the second ref read: reconciled exactly if it succeeds and the head is the commit, unchanged exactly if it succeeds and the head is the one first read, conflicted otherwise; unchanged means the commit is not on the branch |
| `CommitTheorems.LateLandingExactly` | lensically-recovery-worker/src/index.ts:285-297 | an answered call's update can still move the branch exactly if the server has not handled it and the head is the one it read |
| `CommitTheorems.EveryEndingHappens` | lensically-recovery-worker/src/index.ts:285-297 | six runs: ok, reconciled, unchanged with the update lost and with it merely late, conflicted with the commit landed and without |
| `WriteSessions.Repository.CommitFile` | lensically-recovery-worker/src/index.ts:243-298 | whatever others do between its requests, the call ends as a call of the protocol in a run, labelled by its first failure or by the head at the second read, and ok names a move made since that replaced just this path; undisturbed, the branch moves exactly when the update lands |
| `WriteSessions.Repository.Build` | lensically-recovery-worker/src/index.ts:246-283 | from the ref read to the commit on the head that was read, or to the first failure, with others acting in between |
| `WriteSessions.Repository.UpdateRef` | lensically-recovery-worker/src/index.ts:285-297 | after an update without an ok reply the label is reconciled, unchanged or conflicted exactly as the second read succeeds and finds the commit, the first head, or neither |
| `WriteSessions.OkLandedSince` | lensically-recovery-worker/src/index.ts:285-296 | an ok call's commit is the move right after the head it read |
| `WriteSessions.Sessions.StartWrite` | lensically-recovery-worker/src/index.ts:582-591 | a session starts empty, and only for an absent file in create mode and a present one in replace mode |
| `WriteSessions.Sessions.AppendChunk` | lensically-recovery-worker/src/index.ts:592-599 | a chunk is taken whole, and the session then lives for a day, or refused for the first of three reasons with nothing changed; the content is the concatenation of the accepted chunks and at most 750000 long |
| `WriteSessions.AppendsInTimeAreTaken` | lensically-recovery-worker/src/index.ts:158-160 | chunks that fit and come each less than a day after the one before are all taken, in order, and the session is live until a day after the last |
| `WriteSessions.FileReadExactly` | lensically-recovery-worker/src/index.ts:216-241 | a file is read exactly if it is there, can be reached and holds more than a byte order mark, and without one at its start |
| `WriteSessions.Sessions.CommitWrite` | lensically-recovery-worker/src/index.ts:600-612 | with others acting from the existence check to the reply: an ok commit put at the path a blob of the concatenation of all accepted chunks and changed no other, the session goes only after success, and after a failure it is unchanged |
| `GitObjects.BlobKeepsExactly` | lensically-recovery-worker/src/index.ts:258-262 | a blob holds its text unchanged exactly if no surrogate stands alone in it |
| `WriteSessions.CreateOverwritesExactly` | lensically-recovery-worker/src/index.ts:216-241 | create mode goes on over an existing file exactly if it cannot be reached or has no text after a byte order mark |
| `WriteSessions.RetryAfterLanding` | lensically-recovery-worker/src/index.ts:600-610 | exactly when a retry after an unnoticed landing commits again: in create mode if the file cannot be reached or is blank, in replace mode if it can be reached and begins with a byte order mark before more text or had a lone surrogate replaced |
| `WriteSessions.RetryAfterLateLanding` | lensically-recovery-worker/src/index.ts:285-297 | an update that arrives after the failure was answered stores the session's content after all, and the same condition decides the retry |
| `Ledger.Tables.UpsertOrder` | lensically-worker/src/commercialDeliveryService.ts:346-375 | verifying again keeps count and license key; a new order starts at zero unless its key is taken |
| `Ledger.Tables.ConsumeToken` | lensically-worker/src/commercialDeliveryService.ts:466-476 | consuming succeeds exactly on an unused token alive by whole seconds, and marks it used |
| `Delivery.DeliveryService.IssueDownload` | lensically-worker/src/commercialDeliveryService.ts:333-404 | the statements of one issue request, in order, are a run of the ledger; it is granted exactly below five downloads or, for a new order, with a key that is free, answers with the session's key, drops exactly the gone tokens and adds one for fifteen minutes |
| `Delivery.DeliveryService.ServeDownload` | lensically-worker/src/commercialDeliveryService.ts:448-482 | the statements of one serve request are a run of the ledger; which of the refusals or the download it ends in, and what the two tables then hold |
| `LedgerTheorems.LedgerBalances` | lensically-worker/src/commercialDeliveryService.ts:335-482 | every interleaving: no token is consumed twice, count plus serves between consuming and counting is the tokens consumed for the order, and the key is the deterministic one |
| `LedgerTheorems.CountsAreCountingSteps` | lensically-worker/src/commercialDeliveryService.ts:346-482 | over a run an order is never lost, its license key never changes, and its count rises by the downloads counted for it and nothing else |
| `LedgerTheorems.DownloadsBoundedByOverlap` | lensically-worker/src/commercialDeliveryService.ts:450-482 | with at most w serves past the limit check and uncounted, an order is counted at most 4 + w times |
| `LedgerRuns.OverlapBoundIsTight` | lensically-worker/src/commercialDeliveryService.ts:450-482 | for every positive w some run reaches 4 + w |
| `LedgerRuns.CleanupSparesLaterServes` | lensically-worker/src/commercialDeliveryService.ts:377-381 | a token a cleanup at T deletes is consumable by no serve that starts at T or later, in any continuation |
| `LedgerRuns.CleanupCanOvertakeAServe` | lensically-worker/src/commercialDeliveryService.ts:448-476 | a run in which a cleanup takes the token of a serve in flight |
| `LedgerRuns.TokenLostExactly` | lensically-worker/src/commercialDeliveryService.ts:377-476 | over every run a serve waiting to consume its token can do so exactly until that token is consumed or a cleanup runs in a second no earlier than its expiry |
| `LedgerRuns.LastSecondIsLost` | lensically-worker/src/commercialDeliveryService.ts:448-476 | an unraced serve started at c and reading later consumes exactly if the token is alive at the read by the millisecond and at c by the second, and gets past the read and fails exactly in the last second |
| `Json.QuoteReadable` | lensically-worker/src/manifestProductIntegration.ts:54 | a quoted string at the front of a text is read in one way only |
| `Json.OneUnitQuoted` | lensically-worker/src/manifestProductIntegration.ts:54-56 | how each unit is quoted: as it is, by a short escape, or by four small hexadecimal digits |
| `Canonical.SortDecidedByContents` | lensically-worker/src/manifestProductIntegration.ts:54 | two lists of distinct keys sort alike exactly if they hold the same members |
| `Canonical.SortedKeysInOrder` | lensically-worker/src/manifestProductIntegration.ts:54 | of two keys the one with the smaller first unit that differs is printed first, and a prefix before what it begins |
| `CanonicalTheorems.PrintReadable` | lensically-worker/src/manifestProductIntegration.ts:51-57 | a printed value at the front of a text tells which value it is and where it ends |
| `CanonicalTheorems.StableIsCanonical` | lensically-worker/src/manifestProductIntegration.ts:51-57 | two values print the same exactly if they are equal as trees with objects taken as maps |
| `CanonicalTheorems.ObjectPrinted` | lensically-worker/src/manifestProductIntegration.ts:51-57 | the layout of objects, arrays and constants: commas, colons, no spaces |
| `Fingerprint.ComputeFnv1a` | lensically-worker/src/manifestProductIntegration.ts:59-66 | the loop computes the fold of the hash step over the code units, printed as eight hexadecimal digits |
| `Fingerprint.FingerprintUnitByUnit` | lensically-worker/src/manifestProductIntegration.ts:59-66 | the empty text hashes to 2166136261, and one unit more multiplies its exclusive or with the hash before it by 16777619 modulo 2^32 |
| `Fingerprint.XorBitwise` | lensically-worker/src/manifestProductIntegration.ts:62 | exclusive or sets exactly the bits that differ |
| `Fingerprint.MultiplyingByPrimeIsUndone` | lensically-worker/src/manifestProductIntegration.ts:63 | multiplying by the prime is undone by multiplying by 0x359c449b modulo 2^32 |
| `Fingerprint.StepIsUndone` | lensically-worker/src/manifestProductIntegration.ts:61-64 | the hash before a step is recovered from the one after it |
| `Fingerprint.UnitIsRecovered` | lensically-worker/src/manifestProductIntegration.ts:61-64 | the code unit is recovered from the hashes around it |
| `Fingerprint.FingerprintSpellsHash` | lensically-worker/src/manifestProductIntegration.ts:65 | the text has eight digits and spells the hash |
| `Fingerprint.OneUnitChangesTheFingerprint` | lensically-worker/src/manifestProductIntegration.ts:59-66 | strings of equal length that differ in exactly one code unit have different fingerprints |
| `Evidence.CompactComposesExactly` | lensically-worker/src/manifestProductIntegration.ts:68-72 | compacting with m then n is compacting with the smaller for all values, exactly if neither is negative |
| `Evidence.CompactKeepsTheFirst` | lensically-worker/src/manifestProductIntegration.ts:68-72 | a bound keeps that many of the first elements, all members, and every other value |
| `Evidence.StripIdempotent` | lensically-worker/src/manifestProductIntegration.ts:74-82 | stripping twice is stripping once |
| `Evidence.StripCommutesWithCompact` | lensically-worker/src/manifestProductIntegration.ts:68-82 | stripping and compacting commute, whatever the bound |
| `Evidence.FingerprintIgnoresExactlyTimeStamps` | lensically-worker/src/manifestProductIntegration.ts:386-389 | the text that is hashed is the same exactly if the decisions agree in all but the three time stamps at any depth |
| `Evidence.TimeStampsNeverMatter` | lensically-worker/src/manifestProductIntegration.ts:79-79 | adding, removing or changing a generated_at, created_at or updated_at at any depth leaves the stripped evidence and the fingerprint as they were |
| `Evidence.OtherMembersKept` | lensically-worker/src/manifestProductIntegration.ts:77-81 | every member with another key is kept with its value stripped, and nothing else is |
| `Utf8.RoundTripExactly` | lensically-recovery-worker/src/index.ts:203-207 | a text survives encoding and decoding exactly if no surrogate stands alone |
| `Utf8.KnownBytes` | lensically-recovery-worker/src/index.ts:207-207 | the bytes of texts of one, two, three and four bytes, and of a lone surrogate |
| `Base64.DecodingUndoesEncoding` | lensically-recovery-worker/src/index.ts:201-214 | every byte sequence comes back, with white space inserted anywhere |
| `Base64.KnownEncodings` | lensically-recovery-worker/src/index.ts:789-791 | the examples of section 10 of RFC 4648, and both marks of the URL alphabet |
| `Base64.TextToBase64` | lensically-recovery-worker/src/index.ts:206-214 | the chunked loop yields the base64 of the UTF-8 bytes |
| `Base64.TextRoundTripExactly` | lensically-recovery-worker/src/index.ts:201-214 | a text comes back exactly if no surrogate stands alone and it does not begin with a byte order mark |
| `Base64.UrlRoundTrip` | lensically-recovery-worker/src/index.ts:789-810 | stripped padding and the URL alphabet are restored for every byte string; other strings are refused at encoding |
| `Cursor.EncodeCursorNeverThrows` | lensically-worker/src/cycleObservabilityService.ts:179-181 | the cursor's JSON has no lone surrogate, so percent encoding accepts it |
| `Cursor.CursorRoundTripExactly` | lensically-worker/src/cycleObservabilityService.ts:179-195 | a cursor comes back exactly if its parts are trimmed, not blank and within the decoder's bounds |
| `Cursor.OneUnitEncoded` | lensically-worker/src/cycleObservabilityService.ts:180-180 | which ASCII units are left alone, and that the others become a percent sign and two large hexadecimal digits |
| `Cursor.CursorSpelled` | lensically-worker/src/cycleObservabilityService.ts:180-180 | the cursor's JSON is an object of two strings, at and id |
| `Keyset.LastingRowsOnce` | lensically-worker/src/cycleObservabilityService.ts:432-442 | keyset pages over any strict order and any cursor code that round-trips: descending rows, and every lasting row once the walk ends |
| `Pagination.RowsAreOrdered` | lensically-worker/src/cycleObservabilityService.ts:432-437 | comparing time and then id by bytes is a strict order, total on proper rows |
| `Pagination.CursorsStandForRows` | lensically-worker/src/cycleObservabilityService.ts:465-467 | the cursor of a proper row decodes to that row |
| `PaginationTheorems.WalkReturnsLastingRowsOnce` | lensically-worker/src/cycleObservabilityService.ts:407-470 | with tables and limits changing between reads: descending rows, none twice, and every row present at each read once the walk ends |
| `PaginationTheorems.NewestFirst` | lensically-worker/src/cycleObservabilityService.ts:432-436 | of any two rows a walk returns, the earlier one has the greater time by UTF-8 bytes, or the same time and the greater id |
| `PaginationTheorems.FirstPageSize` | lensically-worker/src/cycleObservabilityService.ts:118-121 | a page has at most ten rows, or as many as a limit of 1 to 9 says, and tells whether there are more |
| `PaginationTheorems.WalkFinishesWithLastingRows` | lensically-worker/src/cycleObservabilityService.ts:407-470 | if the tables draw on finitely many rows, the walk ends within as many pages, or one, and has returned every row present at each read |
| `PaginationTheorems.FixedTableWalk` | lensically-worker/src/cycleObservabilityService.ts:407-470 | on a fixed table the pages together are the sorted table, in exactly max(1, ceil(n / limit)) pages |
| `PaginationTheorems.RefusedCursorRestarts` | lensically-worker/src/cycleObservabilityService.ts:183-195 | which cursors the decoder refuses, and that a refused one reads the first page again |
| `Keyset.MissedExactly` | lensically-worker/src/cycleObservabilityService.ts:532-545 | for any strict order: in a walk that ends, a row in every table whose key never falls is missed exactly if some page but the last ends above it and it is no longer below that end at the next read |
| `PaginationTheorems.RisingRowMissedExactly` | lensically-worker/src/cycleObservabilityService.ts:532-545 | the same for the history pages and their encoded cursor |
| `PaginationTheorems.RisingRowShownOnce` | lensically-worker/src/cycleObservabilityService.ts:532-545 | in no walk is a run whose key never falls shown on two pages, whatever its key is on each |
| `PaginationTheorems.RisingKeyIsMissed` | lensically-worker/src/cycleObservabilityService.ts:532-545 | a walk that ends without a row that was in the table at every read, because its sort key rose in between |
| `Ranking.ComputeScore` | lensically-recovery-worker/src/mandatoryRecoveryMap.ts:95-106 | the loop computes the greatest score of any alias, or zero |
| `RankingTheorems.PartialOverlapScoresLess` | lensically-recovery-worker/src/mandatoryRecoveryMap.ts:100-103 | an alias without exactly the intent's tokens scores less than an alias with them, and all with them score alike |
| `RankingTheorems.ChoiceIsBest` | lensically-recovery-worker/src/mandatoryRecoveryMap.ts:207-215 | no tool that is not excluded scores higher than the chosen one |
| `RankingTheorems.UnknownExactly` | lensically-recovery-worker/src/mandatoryRecoveryMap.ts:207-228 | an intent is unknown exactly if no tool that is not excluded scores 8 |
| `RankingTheorems.AmbiguousExactly` | lensically-recovery-worker/src/mandatoryRecoveryMap.ts:212-228 | an intent is ambiguous exactly if a best candidate is below 18 and leads another one by less than 4 |
| `RankingTheorems.VerbatimAliasWins` | lensically-recovery-worker/src/mandatoryRecoveryMap.ts:95-106 | for any tool list, an intent that is verbatim an alias always chooses a tool having an alias with exactly the same tokens |
| `RankingTheorems.OnlyVerbatimAlias` | lensically-recovery-worker/src/mandatoryRecoveryMap.ts:206-215 | and if no other tool has such an alias, the tool it names |
| `TokenLaws.TokensSpelled` | lensically-recovery-worker/src/mandatoryRecoveryMap.ts:49-51 | tokens are the maximal runs of small letters and digits of the lowered, trimmed, cut text that are longer than one and none of 25 small words, each once |
| `TokenLaws.PiecesInOrder` | lensically-recovery-worker/src/mandatoryRecoveryMap.ts:50-50 | and they come in the order of the text |
| `TokenLaws.AliasScoreSpelled` | lensically-recovery-worker/src/mandatoryRecoveryMap.ts:99-103 | an alias scores four and a tenth of its length up to ten for each shared token, six times its shared part, or a hundred if it is the lowered intent |
| `TokenLaws.AliasesSpelled` | lensically-recovery-worker/src/mandatoryRecoveryMap.ts:91-93 | a tool goes by its spaced name, lowered title and description, and explicit aliases |
| `TokenLaws.SplitNameKeepsLetters` | lensically-recovery-worker/src/mandatoryRecoveryMap.ts:45-47 | a spaced name has the letters of the name, small and in order, without capitals or dashes |
| `TokenLaws.NamesSpaced` | lensically-recovery-worker/src/mandatoryRecoveryMap.ts:46-46 | spaces stand before capitals that follow a small letter or digit, and one for each run of dashes |
| `TokenLaws.KeySpelled` | lensically-recovery-worker/src/mandatoryRecoveryMap.ts:37-43 | a key is the runs of the lowered first 500 units, joined by underscores and cut to 160, or "unknown" |
| `RecoveryMap.RecoveryStore.Prepare` | lensically-recovery-worker/src/mandatoryRecoveryMap.ts:146-259 | the answer with its permit, or the throw when the permit cannot be signed, and the incident opened in either case, as functions of the store before |
| `RecoveryMap.RecoveryStore.Finalize` | lensically-recovery-worker/src/mandatoryRecoveryMap.ts:278-337 | the outcome with its permit, or the throw when the permit cannot be signed, and the records written in either case, as functions of the store before |
| `Permits.PermitEncodableExactly` | lensically-recovery-worker/src/index.ts:789-810 | with the rest of the payload in bytes, a permit is encoded, and read back whole, exactly if each unit of its intent is a byte or a lone surrogate |
| `RecoveryTheorems.LastEventDecides` | lensically-recovery-worker/src/mandatoryRecoveryMap.ts:290-335 | over every run, a key has an entry, a stale path with its lifetime, or neither, exactly as the last failure or promotion for it says |
| `RecoveryTheorems.NeverEntryAndStale` | lensically-recovery-worker/src/mandatoryRecoveryMap.ts:291-331 | no key ever holds both an entry and a stale record |
| `RecoveryTheorems.RefusedAsStaleExactly` | lensically-recovery-worker/src/mandatoryRecoveryMap.ts:186-198 | a well-formed request without an unexpired permit is refused as stale exactly from a failure of its key until a promotion or the end of 90 days, and gets its answer and permit exactly if its intent can also be signed |
| `RecoveryTheorems.StalePathNeverRuns` | lensically-recovery-worker/src/mandatoryRecoveryMap.ts:157-198 | while a key is stale nothing but a discovery under a permit can run for it |
| `RecoveryTheorems.PromotedToolIsMandatory` | lensically-recovery-worker/src/mandatoryRecoveryMap.ts:202-247 | after a promotion the promoted tool is used while it is offered, and made ready exactly if each required input is given and declared |
| `RecoveryTheorems.RankedToolReadyExactly` | lensically-recovery-worker/src/mandatoryRecoveryMap.ts:206-259 | with no unexpired permit, nothing stale and no promoted tool on offer the ranking decides: its choice is made ready exactly if each required input is given and declared, and without one the intent is ambiguous or unknown |
| `RecoveryTheorems.VerbatimAliasReached` | lensically-recovery-worker/src/mandatoryRecoveryMap.ts:206-259 | with no permit and no record, preparing a verbatim alias leads to a tool with exactly its tokens, ready exactly if each required input is given and declared |
| `RecoveryTheorems.IntentSpelled` | lensically-recovery-worker/src/mandatoryRecoveryMap.ts:152-155 | the intent is the trimmed text cut to 8000, and a request is invalid exactly if that is empty or the inputs are no object |
| `RecoveryTheorems.FinalIntentSpelled` | lensically-recovery-worker/src/mandatoryRecoveryMap.ts:289-289 | a prepared action is finalized under its intent trimmed and cut to 8000, or as an unknown action |
| `RecoveryTheorems.PermitAnswered` | lensically-recovery-worker/src/mandatoryRecoveryMap.ts:157-184 | an unexpired permit is answered ready exactly if its incident is there, open and of the very intent, and the tool asked for is offered and not excluded, and invalid otherwise |
| `RecoveryTheorems.ExcludedNeverReady` | lensically-recovery-worker/src/mandatoryRecoveryMap.ts:28-28 | after any run whatever is made ready is in the tool list and is neither of the two excluded names, promoted tools included |
| `RecoveryTheorems.RunIncident` | lensically-recovery-worker/src/mandatoryRecoveryMap.ts:318-333 | over a run an incident keeps its intent and is resolved exactly if it was, or was promoted on the way |
| `RecoveryTheorems.ResolvedAuthorisesNothing` | lensically-recovery-worker/src/mandatoryRecoveryMap.ts:157-166 | in every continuation an unexpired permit for a resolved incident is refused |
| `RecoveryTheorems.PromotedAtMostOnce` | lensically-recovery-worker/src/mandatoryRecoveryMap.ts:161-335 | when each execution is finalized before the next is prepared, no incident is promoted twice |
| `RecoveryInterleaved.PromotedAgainExactly` | lensically-recovery-worker/src/mandatoryRecoveryMap.ts:311-333 | with overlapping executions a resolved incident can be promoted again from a time on exactly if another discovery of it is still to be finalized and its record is still there |
| `RecoveryInterleaved.OnePermitCanPromoteTwice` | lensically-recovery-worker/src/mandatoryRecoveryMap.ts:157-333 | a permit used twice before the first of its executions is finalized lets both promote |
| `RecoveryInterleaved.NeverBoth` | lensically-recovery-worker/src/mandatoryRecoveryMap.ts:291-331 | no key holds both an entry and a stale record, however executions overlap |
| `RecoveryTheorems.RefusalLeavesWayOnExactly` | lensically-recovery-worker/src/mandatoryRecoveryMap.ts:136-316 | after a refusal that opens an incident some permit works exactly if the call answered and did not throw, the incident was not promoted, its thirty days are not over, and the refusal or a renewal is less than thirty minutes old |
| `RecoveryTheorems.PermitAuthorisesExactly` | lensically-recovery-worker/src/mandatoryRecoveryMap.ts:157-173 | in every continuation a permit for an open incident authorises its intent with an offered tool exactly until the permit or the incident ends or the incident is promoted |
| `RecoveryTheorems.DiscoveryOpenExactly` | lensically-recovery-worker/src/mandatoryRecoveryMap.ts:136-316 | some permit handed out for an incident works exactly if its intent can be signed, it was not promoted, its thirty days are not over, and its opening or a renewal is less than thirty minutes old |
| `RecoveryTheorems.RunIssuesRenewals` | lensically-recovery-worker/src/mandatoryRecoveryMap.ts:315-317 | after its opening an incident gets a permit exactly when a failed discovery renews it |
| `RecoveryTheorems.RenewedInTime` | lensically-recovery-worker/src/mandatoryRecoveryMap.ts:313-316 | no incident is renewed that is resolved, past its thirty days, or of an intent that cannot be signed |
| `RecoveryTheorems.RenewalsReach` | lensically-recovery-worker/src/mandatoryRecoveryMap.ts:315-317 | for an intent that can be signed, and with permits that were handed out before, renewals reach any moment of the thirty days |
| `RecoveryTheorems.ExpiredPermitRefusedAnew` | lensically-recovery-worker/src/mandatoryRecoveryMap.ts:157-198 | after its permit has expired a request for a stale path is refused as stale again under a new incident, with a new permit if its intent can be signed and by throwing otherwise |
| `RecoveryTheorems.UnsignableNeverPromoted` | lensically-recovery-worker/src/mandatoryRecoveryMap.ts:136-316 | with genuine permits only, an incident whose intent cannot be signed is never promoted |
| `RecoveryTheorems.ArrowGetsNoPermit` | lensically-recovery-worker/src/mandatoryRecoveryMap.ts:290-309 | for an intent of one arrow a failed path writes its stale record and incident, drops the entry, throws, and hands out no permit |
| `RecoveryTheorems.FailureOpensDiscoveryExactly` | lensically-recovery-worker/src/mandatoryRecoveryMap.ts:288-309 | a failed path hands out a permit that works for the intent that failed exactly if that intent can be signed and, cut to length, is still trimmed, for thirty minutes and until the incident is promoted |
| `RecoveryTheorems.KnownPathArguments` | lensically-recovery-worker/src/mandatoryRecoveryMap.ts:237-244 | a known path gets exactly the given inputs its tool declares, unchanged, and all it requires |
| `BatchPosts.ParseNumberedBatchPosts` | lensically-web/lib/batchSchedule.ts:135-170 | the loop gives one post per marker line: the text after the marker with the unmarked lines up to the next, trimmed and numbered |
| `BatchPosts.PostsNumbered` | lensically-web/lib/batchSchedule.ts:145-150 | posts are numbered from 1 in the order of their texts and flagged exactly if they have none |
| `BatchPostPrinting.MarkerIsThePattern` | lensically-web/lib/batchSchedule.ts:154-156 | a line is a marker with a captured text exactly if it is white space, digits, a point or bracket, at most one white space, and that text without a line terminator |
| `BatchPostTheorems.ParsingOneAfterAnother` | lensically-web/lib/batchSchedule.ts:135-170 | a text followed by one that starts with a marker parses as both, renumbered, a carriage return at the joint being dropped |
| `BatchPostTheorems.PlainConcatenationExactly` | lensically-web/lib/batchSchedule.ts:135-170 | without dropping it the law holds exactly if the last line is not a marker spoilt by that carriage return |
| `BatchPostPrinting.PrintedPostsComeBackExactly` | lensically-web/lib/batchSchedule.ts:135-170 | printed texts come back with indices and flags exactly if each is trimmed, free of CR LF, one line at its start, and has no later line that looks like a marker |
| `CalendarTheorems.ShiftsAddUpExactly` | lensically-web/lib/batchSchedule.ts:48-56 | for every date text, adding a then b is adding a + b exactly if the date in between has a four-digit year |
| `CalendarTheorems.AddingZeroExactly` | lensically-web/lib/batchSchedule.ts:48-56 | adding zero is the identity exactly on existing dates of years from 1000 |
| `CalendarTheorems.ShiftIsUndone` | lensically-web/lib/batchSchedule.ts:48-56 | a negative count undoes a positive one and the reverse, exactly inside those years |
| `CalendarTheorems.AddingOneIsNextDay` | lensically-web/lib/batchSchedule.ts:54-55 | one more day is the next Gregorian date, across month ends and leap years |
| `CalendarTheorems.AddingManyIsTurningPages` | lensically-web/lib/batchSchedule.ts:54-55 | n more days are n next dates, past the year 9999 too, up to the last day a date can be, and no date after it |
| `CalendarTheorems.PrintedDay` | lensically-web/lib/batchSchedule.ts:49-55 | a printed day is a date text exactly if its year has four digits, and then of the same day |
| `CalendarTheorems.CivilOfDay` | lensically-web/lib/batchSchedule.ts:54-55 | an existing date is recovered from its day number |
| `CalendarTheorems.MonthsSpelled` | lensically-web/lib/batchSchedule.ts:54-55 | which dates exist, leap days included |
| `CalendarTheorems.PastTheMonthEnd` | lensically-web/lib/batchSchedule.ts:54-55 | a day past the end of its month runs on into the next |
| `CalendarTheorems.TwelveMonthsAreAYear` | lensically-web/lib/batchSchedule.ts:54-54 | a month out of range, 00 or from 13 on, is the month twelve away in the year beside it |
| `CalendarTheorems.AnsweredExactly` | lensically-web/lib/batchSchedule.ts:49-52 | exactly which texts and counts are answered with a date |
| `CalendarTheorems.DayPrinted` | lensically-web/lib/batchSchedule.ts:55-55 | what a day number prints, days beyond the range of dates included |
| `CalendarTheorems.TwoDigitYears` | lensically-web/lib/batchSchedule.ts:54-54 | a text of the years 0 to 99 counts as the same text of 1900 to 1999, whether or not the date exists |
| `IntegrityKeys.KeysCoincideExactly` | lensically-worker/src/databaseIntegrity.ts:16-19 | for valid identifiers keys coincide exactly if table and column set coincide |
| `IntegrityKeys.QuotedExactly` | lensically-worker/src/databaseIntegrity.ts:6-14 | a name is quoted, in brackets, exactly if it is a letter or underscore followed by letters, digits and underscores |
| `IntegrityKeys.KeyOfTwo` | lensically-worker/src/databaseIntegrity.ts:16-19 | the format of a key: table, colon, and the columns in order, each once, with commas |
| `IntegrityKeys.InvalidNameSharesKey` | lensically-worker/src/databaseIntegrity.ts:6-19 | an invalid column name and two valid ones that share a key |
| `IntegrityCache.VerifiedExpectations.Enter` | lensically-worker/src/databaseIntegrity.ts:25-46 | a call joins what is cached or stores its own promise, in the database's one map |
| `IntegrityCache.VerifiedExpectations.DropFailed` | lensically-worker/src/databaseIntegrity.ts:49-51 | after a failure its own promise goes, and the map with it when it is empty |
| `IntegrityTheorems.CachedExactly` | lensically-worker/src/databaseIntegrity.ts:21-54 | over every interleaving the cache holds exactly the checks that are pending, succeeded, or failed with their maker not yet told |
| `IntegrityTheorems.OneQueryInFlight` | lensically-worker/src/databaseIntegrity.ts:27-46 | beside a query in flight every other check of its database and key has failed and been dropped |
| `IntegrityTheorems.ReactionForgetsOnlyItsOwn` | lensically-worker/src/databaseIntegrity.ts:49-51 | a reaction, however late, removes its own failed promise and changes no other lookup of any database |
| `IntegrityTheorems.SuccessIsFinal` | lensically-worker/src/databaseIntegrity.ts:28-29 | after a success every later call of that database and key is answered by it without a query |
| `IntegrityTheorems.CachedVerdictExactly` | lensically-worker/src/databaseIntegrity.ts:21-54 | against a fixed schema every answer is the direct one of the check that was joined, and has the verdict of a direct check of the call's own exactly if both or neither have valid identifiers |
| `IntegrityTheorems.CachedVerdictIsDirect` | lensically-worker/src/databaseIntegrity.ts:21-54 | with valid identifiers throughout every verdict is the direct one, and the whole answer exactly if the database says the same of the joined check's column order |
| `IntegrityTheorems.InvalidNameCanPass` | lensically-worker/src/databaseIntegrity.ts:9-29 | a run in which an invalid name is answered with a success |

## Left out

- HTTP routing, OAuth, HMAC, SHA-256, Stripe, GitHub and Cloudflare clients: only their effect is kept, such as
  a reply that arrives or not, a verified permit, or a fresh random token. Statuses and messages are not modelled.
- The read retry loops of `github` (lensically-recovery-worker/src/index.ts:80-109): a read is one step that may
  fail; a mutation is sent once, as line 93 has it.
- Commit identifiers are the commits themselves, so two equal commits are one, as with git's hashes; the time
  stamp is part of a commit.
- `safePath` and the trimming of a session's message: paths and messages arrive already checked.
- GitObjects.Edit: files are a flat map of paths. A path that names a directory, which reads as no file and whose tree
  entry would replace the whole directory, is not told apart from a new file.
- GitObjects.Blob: what the server makes of a lone surrogate is not in the repository; it is taken to be replaced, as
  UTF-8 encoding does.
- Malformed UTF-8 input to `TextDecoder`: `Utf8` decodes what its encoder produces.
- Ledger.Tables.UpsertOrder: customer, amount and currency columns are left out, since nothing here depends on them.
- JSON number printing: a number is its printed text, and `undefined` is not a value.
- Cursor.CursorRoundTripExactly: `JSON.parse` reads only the shape the encoder writes, and percent decoding only
  what it can have produced; every other text counts as refused.
- Pagination: columns other than the sort key, and SQL null keys. Times and ids are texts, compared by their
  UTF-8 bytes; limits that are not finite numbers take the default.
- Recovery map: objectives, attempt records, candidate lists, identifiers and summaries; an incident's recorded
  inputs and failure. A permit is its incident and expiry; a presented one is taken to be signed. The signer is the
  recovery worker's, which the cited functions are given as a parameter.
- Ranking.ComputeScore: scores are exact numbers, without floating-point rounding; lower-casing covers ASCII
  letters only; tools named like a property every object inherits, such as `constructor`, are taken to have no
  explicit aliases.
- The key-value store is read right after it is written, as in a single location. Executions overlap only in
  `RecoveryInterleaved`; elsewhere requests to the recovery map follow one another.
- CalendarTheorems.ShiftsAddUpExactly: day counts are integers of any size; beyond a hundred million days from
  1970 the date is invalid in the original as here, so rounding of such counts does not show.
- IntegrityTheorems.CachedVerdictIsDirect: it takes for granted that whether a projection succeeds depends on the set
  of its columns, while the error's text may depend on their order.
- `applyRepoTextPatch`, workflow dispatch, the smoke run, search, React components, time zones and build scripts:
  easy members or plumbing.
