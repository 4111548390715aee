# kotoquiz scheduler — a Dafny model

This project models the spaced-repetition core of the kotoquiz vocabulary
quiz API. The model covers:

- **the learning history.** There is one record per (user, word). A record
  counts successes, errors, unanswered questions and streaks, has a status
  (`NEW`, `LEARNING`, `REVIEWING`, `MASTERED`) and a next review date.
- **the state machine.** It applies a quiz outcome to a record, and the
  batch ingestion applies a submitted quiz one result at a time against the
  history store.
- **the history store.** It is get-or-insert and overwrite on a finite map
  keyed by (user, word). The foreign key to the word catalog can reject a
  write.
- **word selection.** Each candidate word gets a priority score from its
  history. The best `nb` are kept and shuffled inside small consecutive
  groups (3 in one revision, 10 in the other). The refactored pipeline
  selects words with history first and completes the list with a random
  choice of unseen words.
- **the request helpers.** These cover comma-separated lists, integer
  parameters, the language code and identifier lists. They also cover the
  projection of a word onto one language, and the CORS decision.

## Modelling choices

- **Time.** Time is whole seconds on an injected clock. One batch receives
  `clock: nat -> Instant`, and the k-th result is applied at `clock(k)`.
  The two clock reads inside one iteration are collapsed into that single
  instant.
- **Rates.** Success-rate thresholds are exact integer cross-multiplication
  (`Common.RateAtLeast` and its siblings). A zero denominator makes every
  comparison false, as a NaN comparison does in Go.
- **Review interval.** The review multiplier is kept in tenths:
  10, plus 2·streak when the streak exceeds 3, plus 5 when the plain success
  rate exceeds 0.8, minus 5 when it is below 0.6. The interval is
  `base hours · 360 · tenths` seconds.
- **Scores.** Priority scores are `real`. The time to a review is Go's
  `time.Time.Sub` in nanoseconds, which saturates at the int64 range of
  `time.Duration` (about ±292 years). So every review date further out than
  that, such as one left at Go's zero time, gets the same base score.
- **Randomness.** Every shuffle is Fisher–Yates driven by an explicit
  stream of draws (`Shuffle.Draws`). Every shuffle group gets its own
  stream, as every group gets its own generator in the source.
- **Collaborators.** The catalog query and the history fetch are parameters
  (`WordDtoService.Sources`), and so is the UUID parser.
- **Panics.** Where the source panics, the model has a precondition:
  - `nb < 0` makes `make([]string, 0, nb)` panic in `prioritizeWords`;
  - a negative slice bound panics in `getRemainingWordsFromHistory`.
- **Duplicate revisions.** Both revisions of the learning-history service
  share the status and scheduling functions, because the refactored file
  copies them verbatim. `HistoryServiceDelegate.DelegateAgreesWithService`
  proves that its small helpers compose to the service's per-result update.
- **Response headers.** gin's `Context.Header` removes a header when it is
  given an empty value instead of setting it. `Cors.SetHeader` models that,
  so an empty list of allowed methods or headers sends no such header.
- **Word type.** `services/word_service_adapter.go` reads `Onyomi` and
  `Kunyomi` from the word, but `models/word.go` declares `Yomi` and
  `YomiType` instead. The model follows the adapter, whose fields match the
  `WordDTO` in `dto/level_dto.go`.

A related observation is proved, but not logged as a finding because the
intended ranking is not evident. More than 100 hours before the review,
the base score is negative and the status weights invert: a mastered word
then outranks the same word when new, and the "bonus" for a struggling
word lowers its score (`WordDtoService.FarReviewsInvertWeights`).

## Model

| member | source | states |
|---|---|---|
| LearningHistory.StatusNameRoundTrip | models/word_learning_history.go:8-15 | The four stored status names are pairwise distinct and each reads back as its status, so the enumeration has exactly four values. |
| LearningHistory.ParseResultToken | dto/quiz_results.go:7-11 | A submitted token is one of the three the scheduler acts on exactly when it is SUCCESS, ERROR or UNANSWERED; any other token is kept, unchanged. |
| LearningHistory.Fresh | models/word_learning_history.go:18-34 | A new record has the given key, zero counters and streaks, status NEW, and satisfies the record invariants. |
| HistoryRepository.GetOrInsertHistory | repositories/word_learning_history_repository.go:21-34 | An existing row is returned untouched with the store unchanged. A missing row is created fresh, inserted and returned, and every other row is unchanged. The call fails exactly when the row is missing and the word is not in the catalog. Key consistency and catalog membership are preserved. |
| HistoryRepository.UpdateHistory | repositories/word_learning_history_repository.go:40-42 | The record overwrites the row under its own key and leaves every other row unchanged. The write fails exactly when the word is not in the catalog. |
| HistoryRepository.GetOrInsertIdempotent | repositories/word_learning_history_repository.go:21-34 | A second get-or-insert of the same pair returns the same record and leaves the store as the first left it. |
| HistoryRepository.UpdateWithUnchangedRecord | repositories/word_learning_history_repository.go:21-42 | Saving the record just fetched does not change the store. |
| HistoryService.UpdateLearningStatus | services/word_learning_history_service.go:56-70 | Only the status changes, and it is the one the counters call for, in both directions: NEW exactly when no known answer was counted; Mastered exactly when there are answers, a streak of at least 5 and a weighted success rate of at least 0.9; otherwise Reviewing exactly when the streak is at least 3 and the rate at least 0.7; Learning in every other case. |
| HistoryService.StatusDeterminedByCounters | services/word_learning_history_service.go:56-70 | Two records whose status matches their counters, and that agree on the counters and the streak, have the same status: the classification is a function of the counters. |
| HistoryService.StatusBoundsSuccessShare | services/word_learning_history_service.go:57-66 | On a well-formed record, Mastered implies at least 9 successes in 10 answers and Reviewing at least 7 in 10. |
| HistoryService.MultiplierTenths | services/word_learning_history_service.go:86-101 | The multiplier is 1.0 plus the streak bonus (0.2 per step once the streak exceeds 3), plus 0.5 when the success share is above 0.8, minus 0.5 when it is below 0.6, and neither with no answer. It is never below 0.5. |
| HistoryService.MultiplierGrowsWithSuccessShare | services/word_learning_history_service.go:90-101 | At equal streak, a success share at least as high never gives a smaller multiplier. |
| HistoryService.RateAdjustmentsExclusive | services/word_learning_history_service.go:94-101 | The +0.5 bonus and the −0.5 penalty never both apply. |
| HistoryService.BaseIntervalGrowsWithProgress | services/word_learning_history_service.go:74-84 | A more advanced status has a strictly longer base interval. |
| HistoryService.IntervalSeconds | services/word_learning_history_service.go:72-103 | The interval is the base interval of the status (4, 24, 72 or 168 hours) times the performance multiplier, in seconds. It is positive and at least half the base interval. |
| HistoryService.IntervalGrowsWithSuccessShare | services/word_learning_history_service.go:72-103 | At equal status and streak, a better success share never brings the next review closer. |
| HistoryService.CalculateNextReviewDate | services/word_learning_history_service.go:72-104 | Only the review date changes. It is `now` plus the base interval of the status stretched by the multiplier: base hours × 360 × multiplier tenths, in seconds. It is therefore strictly after `now`. |
| HistoryService.IntervalGrowsWithStreak | services/word_learning_history_service.go:88-103 | At equal status and counters, a longer streak never brings the next review closer. Once the streak exceeds 3, every further step pushes the review strictly later. |
| HistoryService.RecordAnswer | services/word_learning_history_service.go:26-42 | The view is recorded at `now` and the answer count rises by one. A success bumps successes and the streak, and lifts the best streak to the larger of the two. An error or unanswered bumps its own counter and resets the streak. Any other token leaves every counter and streak as it was. |
| HistoryService.ApplyResult | services/word_learning_history_service.go:26-47 | The view is recorded at `now` and the answer count rises by one. A success bumps successes and streak and lifts the best streak to their maximum. An error or unanswered bumps its own counter and resets the streak. No counter decreases. The resulting status is the one the updated counters call for. The next review is `now` plus the base interval of that new status, stretched by the multiplier of the updated counters and streak. For the three known tokens the record invariants are preserved and the status is never NEW. An unknown token changes no counter. |
| HistoryService.MissDemotesToLearning | services/word_learning_history_service.go:36-69 | Any error or unanswered question demotes the record to Learning with streak 0. |
| HistoryService.ApplyAll | services/word_learning_history_service.go:20-47 | Applying n outcomes adds n to the answer count and schedules the review after `now`. |
| HistoryService.SuccessRunFromFresh | services/word_learning_history_service.go:30-69 | n successes on a fresh record give n successes, streak n, and status Learning for 1–2, Reviewing for 3–4 and Mastered from 5. |
| HistoryService.FiveSuccessesThenError | e2e/wordDtos_test.go:226-251 | Five successes on a fresh record reach Mastered, and one error after that falls back to Learning. |
| HistoryService.ProcessOne | services/word_learning_history_service.go:21-51 | One iteration saves exactly the prior record with the outcome applied. It fails on the read exactly for an unknown new word, and never on the write when every row is in the catalog. |
| HistoryService.ProcessFrom | services/word_learning_history_service.go:20-53 | Success means every result was applied with two store calls each. A failure stops after the last fully applied result with at most two more calls. The catalog never changes. |
| HistoryService.ProcessQuizResults | services/word_learning_history_service.go:19-54 | An empty batch succeeds with no store call and no change. Success means every result was applied. |
| HistoryService.CallsFollowResults | services/word_learning_history_service.go:20-52 | The store calls are a prefix of "get-or-insert then update, per result, in order": nothing is retried, skipped or reordered. |
| HistoryService.ProcessFrame | services/word_learning_history_service.go:20-52 | No row is removed. Rows of other users, and this user's rows for words not in the batch, are unchanged. |
| HistoryService.ProcessPreservesInvariants | services/word_learning_history_service.go:28-51 | Every row stays under its key and in the catalog. When every token is known, every record stays well formed. |
| HistoryService.FailureKeepsPrefix | services/word_learning_history_service.go:20-52 | On failure the failing word is unknown and has no row, and the store is exactly what the results before it produced. |
| HistoryService.AnswerCountTracksSubmissions | services/word_learning_history_service.go:20-28 | After a successful batch, each record counted one more answer per occurrence of its word in the batch. |
| HistoryService.SameWordTwice | services/word_learning_history_service.go:20-49 | A word submitted twice in one batch has the state machine applied twice, in order, to the same row. |
| HistoryServiceDelegate.UpdateHistoryBasicInfo | services/word_learning_history_service_delegate.go:9-12 | Only the view time and the answer count change, the latter by +1. |
| HistoryServiceDelegate.HandleSuccessfulAnswer | services/word_learning_history_service_delegate.go:25-31 | Successes and streak rise by one. The best streak never decreases and becomes the new streak when that is larger. Nothing else changes. |
| HistoryServiceDelegate.HandleFailedAnswer | services/word_learning_history_service_delegate.go:33-36 | Exactly one more error and the streak reset; the best streak is untouched. |
| HistoryServiceDelegate.HandleUnansweredQuestion | services/word_learning_history_service_delegate.go:38-41 | Exactly one more unanswered and the streak reset; the best streak is untouched. |
| HistoryServiceDelegate.UpdateHistoryStats | services/word_learning_history_service_delegate.go:14-23 | An unknown token changes nothing. A known one adds one known answer, and neither the best streak nor the key, view time, review date or status moves. |
| HistoryServiceDelegate.DelegateAgreesWithService | services/word_learning_history_service_delegate.go:9-92 | The refactored helpers, composed as the service composes its inline code, compute the service's per-result update exactly. |
| HistoryServiceDelegate.StatsRestoreInvariant | services/word_learning_history_service_delegate.go:9-41 | Recording a view and counting a known outcome restores the answer-count and streak invariants. |
| HistoryServiceDelegate.StatusNeedsStreak | services/word_learning_history_service_delegate.go:43-57 | Mastered implies a streak of at least 5, and Reviewing at least 3. |
| Ranking.InsertDesc | services/word_dto_service.go:136-139 | Inserting into a list sorted by descending score keeps it sorted and adds exactly that item. |
| Ranking.SortDesc | services/word_dto_service.go:136-139 | The result is sorted by descending score and is a permutation of the input. |
| Ranking.PrefixOfRankingIsTop | services/word_dto_service.go:141-145 | The first n items of a descending ranking score at least as much as every item left out. |
| Ranking.BlockwiseIsPermutation | services/word_dto_service.go:154-168 | Shuffling within consecutive blocks permutes the whole list. |
| Ranking.BlockwiseShuffleKeepsCoarseOrder | services/word_dto_service.go:154-168 | Shuffling a descending ranking within blocks keeps every block scoring at least as much as every later block. |
| Ranking.CoarseOrderByPosition | services/word_dto_service.go:154-168 | In a block-ordered list, an item at position i scores at least as much as one at position j whenever i's block precedes j's. |
| Shuffle.Swap | services/word_dto_service_delegate.go:121 | Exchanging two positions permutes the list and changes nothing else. |
| Shuffle.ShuffleDown | services/word_dto_service_delegate.go:119-122 | The Fisher–Yates pass permutes the list and leaves everything after its start position in place. |
| Shuffle.FisherYates | services/word_dto_service_delegate.go:117-122 | The shuffle is a permutation of the same length. |
| Shuffle.ShuffleBlocks | services/word_dto_service.go:154-168 | Each consecutive group is shuffled within itself, the last group possibly short. |
| Shuffle.ShuffleBlocksIsPermutation | services/word_dto_service.go:154-168 | The group shuffle keeps the multiset of identifiers. |
| Shuffle.ShuffleBlocksKeepsCoarseOrder | services/word_dto_service.go:154-168 | After the group shuffle of a ranking, an item in an earlier group scores at least as much as one in a later group. |
| WordDtoService.MakeHistoryMap | services/word_dto_service_delegate.go:177-183 | The map has exactly the words of the histories as keys. Each maps to one of its own histories, and every history that no later history replaces is the one its word maps to, so the last history of each word wins. |
| WordDtoService.SubNanos | services/word_dto_service.go:102 | `NextReviewDate.Sub(now)`: the exact nanosecond difference while it fits in an int64 `time.Duration` (within about 292 years), the int64 bound beyond, non-positive exactly when the review is due. |
| WordDtoService.SubNanosMonotone | services/word_dto_service.go:102 | A later review date is never a shorter duration away, clamping included. |
| WordDtoService.BaseScore | services/word_dto_service.go:101-110 | The base score is 100 minus the hours until review on both branches, with the saturated duration. Within about 292 years of `now` it is exactly 100 − seconds/3600. Beyond that it is the constant 100 ± 2^63 ns in hours. It is at least 100 when due and below 100 when not yet due. |
| WordDtoService.SaturatedOverdueRanksByStatus | services/word_dto_service.go:101-129 | Two words overdue by more than about 292 years have the same base score, whatever their dates. At equal struggling class, the less advanced status then scores strictly more. |
| WordDtoService.StatusWeight | services/word_dto_service.go:112-122 | The weights are 1.2 for New, 1.1 for Learning, 0.9 for Reviewing and 0.7 for Mastered. All are positive, and a weight exceeds 1 exactly for New and Learning. |
| WordDtoService.WeightFallsWithProgress | services/word_dto_service.go:112-122 | A more advanced status weighs strictly less, and only a more advanced status does: New > Learning > Reviewing > Mastered. |
| WordDtoService.HistoryScore | services/word_dto_service.go:100-129 | The score is the base score times the status weight. It is multiplied by a further 1.3 exactly when the word was answered and fewer than 3 answers in 5 were successes. |
| WordDtoService.LessAdvancedScoresHigher | services/word_dto_service.go:100-129 | For a word with a non-negative base score, at equal review date and struggling class, a less advanced status never scores less. It scores strictly more once the base score is positive. |
| WordDtoService.Score | services/word_dto_service.go:94-130 | A word without history scores exactly 50. A word with one gets the history score above. A word due or overdue always scores above 50, so it ranks ahead of every word without history. |
| WordDtoService.OverdueOutranksUnseen | services/word_dto_service.go:97-130 | A due or overdue word scores at least 70, more than any word without history. |
| WordDtoService.EarlierDueScoresHigher | services/word_dto_service.go:101-130 | For the same status and struggling class, an earlier review date never scores less. |
| WordDtoService.FarReviewsInvertWeights | services/word_dto_service.go:101-130 | More than 100 hours before review, a mastered word outranks the same word when new, and the struggling bonus lowers the score. |
| WordDtoService.TopRanked | services/word_dto_service.go:136-145 | The result holds min(nb, candidates) of the candidates, sorted by descending score. Each scores at least as much as every candidate left out, and all candidates are kept when nb covers them. |
| WordDtoService.PrioritizeWords | services/word_dto_service.go:75-151 | The result holds exactly min(nb, candidates) items, a sub-multiset of the candidates, so nothing is fabricated. It is distinct when the candidates are, and a permutation of all of them when nb covers them. |
| WordDtoService.PrioritizeKeepsTheBest | services/word_dto_service.go:136-148 | Every selected word scores at least as much as every candidate left out. |
| WordDtoService.PrioritizeKeepsCoarseOrder | services/word_dto_service.go:148-168 | After the shuffle, a word in an earlier group of 3 (or 10) scores at least as much as a word in a later group. |
| WordDtoService.ListWordsIds | services/word_dto_service.go:25-42 | A failing catalog query or history fetch is returned as the error. Otherwise the result is min(nb, candidates) candidates, distinct when they are, and empty for nb = 0. |
| WordDtoServiceDelegate.ShuffleAndLimit | services/word_dto_service_delegate.go:107-130 | A limit of zero or less gives an empty list. Otherwise the result holds min(limit, ids) of the ids, all of them when the limit covers them. |
| WordDtoServiceDelegate.ShuffleAndLimitDrawsFromInput | services/word_dto_service_delegate.go:113-129 | Everything returned comes from the input, without repetition when the input has none. |
| WordDtoServiceDelegate.FetchAndValidateWords | services/word_dto_service_delegate.go:132-146 | A failing catalog query is returned as the error. No candidates, or nb ≤ 0, give an empty list. Otherwise the result is a random choice of min(nb, candidates) candidates. |
| WordDtoServiceDelegate.SplitByKeys | services/word_dto_service_delegate.go:162-175 | The split is an order-preserving partition: both sides are subsequences, together a permutation of the input, and the first side holds exactly the words with history. |
| WordDtoServiceDelegate.SplitWordsByHistory | services/word_dto_service_delegate.go:162-175 | Words with a history go to the first list and words without to the second, each in input order, together a permutation of the input. |
| WordDtoServiceDelegate.GetRemainingWordsFromHistory | services/word_dto_service_delegate.go:223-234 | The result is empty when nothing is needed or the prioritised words already fit. Otherwise it is the contiguous run of prioritised words starting at position nb − stillNeeded, of length min(stillNeeded, what is left after that position). |
| WordDtoServiceDelegate.CompleteWithWordsWithoutHistory | services/word_dto_service_delegate.go:204-221 | The prioritised words come first, followed only by the random choice of words without history: reuse of history words never contributes. |
| WordDtoServiceDelegate.ReuseOfHistoryWordsIsEmpty | services/word_dto_service_delegate.go:205-226 | Whenever the reuse branch is reached, the prioritised words fit in the first nb − stillNeeded places, so it returns nothing. |
| WordDtoServiceDelegate.CombineWordLists | services/word_dto_service_delegate.go:185-202 | With at least nb prioritised words the result is the first nb of them. Otherwise it is all of them followed by a random choice of words without history. |
| WordDtoServiceDelegate.MembersFirst | services/word_dto_service_delegate.go:220 | In the concatenation of history words and unseen words, the history words occupy exactly the first places. |
| WordDtoServiceDelegate.CombineSelection | services/word_dto_service_delegate.go:185-221 | Combining a split gives min(nb, total) words from the two lists, distinct when they are, with history words first. |
| WordDtoServiceDelegate.CombineEnough | services/word_dto_service_delegate.go:190-192 | With enough prioritised words, the result is nb of the words with history. |
| WordDtoServiceDelegate.CombineCompleted | services/word_dto_service_delegate.go:195-201 | With too few prioritised words, the result is all of them plus unseen words up to min(nb, total), history words first. |
| WordDtoServiceDelegate.ProcessWordsWithLearningHistory | services/word_dto_service_delegate.go:148-160 | The call fails exactly when the history fetch fails, with that error. |
| WordDtoServiceDelegate.ProcessWordsSelection | services/word_dto_service_delegate.go:148-221 | When the fetch succeeds, the selection holds min(nb, candidates) candidates, distinct when the candidates are, and every word with history precedes every word without. |
| Strings.Split | controllers/controllers_adapter.go:47 | The value splits into one more piece than it has commas. No piece holds a comma, and joining the pieces back with commas gives the value. |
| Strings.SplitJoin | controllers/controllers_adapter.go:47 | Splitting a comma-joined list of comma-free items gives the items back. |
| Strings.Atoi | controllers/controllers_adapter.go:67 | Parsing fails on an empty value. A parsed value starts with a digit or a sign, has only digits after that, lies in the 64-bit range, and is negative only after a minus sign. |
| Strings.AtoiItoa | middlewares/cors.go:79 | Every 64-bit number written in decimal reads back as itself. |
| ControllersAdapter.GetQueryParamList | controllers/controllers_adapter.go:43-50 | An empty parameter gives no items. Otherwise there is one item more than commas, in order, empty items kept, and they join back to the raw value. |
| ControllersAdapter.QueryParamListRoundTrip | controllers/controllers_adapter.go:43-50 | A list of comma-free items, not reduced to one empty item, survives being sent as a comma-separated parameter. |
| ControllersAdapter.GetQueryParamIntAsWritten | controllers/controllers_adapter.go:61-75 | The helper reads the path parameter and gives a non-negative default when it is empty. A parse failure writes a 400 and returns an error with value zero. A negative parsed value, or a negative default, writes a 400 and returns zero with no error. A non-negative parsed value is returned as is, with no 400. |
| ControllersAdapter.NegativeIntAcceptedWithoutError | controllers/controllers_adapter.go:70-73 | For nb = -1 the helper writes a 400 yet returns zero with no error. |
| ControllersAdapter.RequestedCountIgnoredOnQuizRoute | controllers/controllers_adapter.go:62 | On a route with no path parameter, a count given in the query is ignored and the default 30 is used. The query-reading helper returns the count. |
| ControllersAdapter.GetQueryParamInt | controllers/controllers_adapter.go:61-75 | Corrected helper: it reads the query. An error is returned exactly when a 400 is written, which happens exactly on a parse failure or a negative value. The value is otherwise the default (empty) or the parsed number. |
| ControllersAdapter.GetQueryParamIntReadsWhatWasSent | controllers/controllers_adapter.go:61-75 | Every non-negative 64-bit number sent as the parameter is read back as itself, with no error. |
| ControllersAdapter.GetQueryParamLang | controllers/controllers_adapter.go:84-90 | The language is never empty: the given one, or "en" when absent. |
| ControllersAdapter.ParseUuid | controllers/controllers_adapter.go:100-106 | It succeeds exactly when the parser accepts, with the parser's value. On failure it gives the nil UUID. |
| ControllersAdapter.ParseUuids | controllers/controllers_adapter.go:116-126 | All or nothing: success exactly when every item parses, giving a same-length list parsed item by item. Otherwise it gives no list. |
| WordServiceAdapter.ExtractLabel | services/word_service_adapter.go:54-66 | A missing label or an unsupported language gives ""; "en" gives the English text and "fr" the French. |
| WordServiceAdapter.ExtractLabels | services/word_service_adapter.go:14-17 | Labels are mapped one to one and in order. |
| WordServiceAdapter.MapLevel | services/word_service_adapter.go:24-39 | The category is taken in the language, and the level names one to one and in order. |
| WordServiceAdapter.MapWordToDto | services/word_service_adapter.go:8-52 | No word gives no view. Otherwise identifier, kanji, readings and image are copied, the translation is taken in the language, and tags and levels are mapped one to one and in order. |
| WordServiceAdapter.FrenchViewShowsFrenchTexts | e2e/wordDtos_test.go:40-56 | The French view carries the French translation, tag texts and level categories, as the read-back scenario checks. |
| WordServiceAdapter.UnsupportedLanguageBlanksTexts | services/word_service_adapter.go:58-65 | In an unsupported language every text is empty while the shape of the word is kept. |
| Cors.JoinStrings | middlewares/cors.go:108-118 | The loop computes the items joined with ", " in order, and "" for none. |
| Cors.Contains | middlewares/cors.go:121-128 | The loop answers true exactly when the value is one of the items. |
| Cors.CorsHeaders | middlewares/cors.go:64-83 | Headers are set exactly for an allowed, non-empty origin. Allow-Origin echoes the origin and Max-Age comes from the configuration. Allow-Methods and Allow-Headers carry the joined lists, and are absent when a list joins to nothing, since an empty header value removes the header. Allow-Credentials is set, to "true", exactly when the flag is also on. No other header is set. |
| Cors.SetHeader | middlewares/cors.go:76-82 | Setting a non-empty value stores it under its key; an empty value removes the key; every other header is untouched. |
| Cors.HandleCors | middlewares/cors.go:62-104 | The response carries headers exactly for an allowed, non-empty origin, with Allow-Credentials exactly when the flag is on. OPTIONS ends with 204 and every other method goes on. |
| Cors.PreflightMatchesRequest | middlewares/cors.go:74-103 | A preflight gets the same headers as any other request from that origin. |
| Cors.ProductionRefusesUnlistedOrigins | middlewares/cors.go:67-72 | Outside debug mode an unlisted origin gets no header, localhost included. |

## Left out

- HTTP plumbing is not modelled: gin contexts, routing, JSON bodies, response writing and logging. The CORS decision and the parameter helpers are pure functions of the values they read. Server mode is a parameter.
- The catalog query `ListWordsIds` and the history fetch `GetHistoriesByWordIDs` are foreign calls. They are the parameters of `WordDtoService.Sources`, and nothing is assumed about what they return.
- HistoryRepository.GetOrInsertHistory: the only store failure modelled is the foreign-key violation for a word missing from the catalog. Connection and other database errors are not modelled.
- HistoryService.IntervalSeconds: the multiplier is exact tenths. Two effects are not modelled: float64 rounding at the nanosecond, and the int64 nanosecond overflow of `time.Duration`, which needs a streak above about 76,000.
- HistoryService.ApplyResult: counters are unbounded. The 64-bit wrap-around of Go `int` counters is not modelled, because it needs 2^63 answers.
- WordDtoService.TopRanked: `sort.Slice` is not stable, so Go leaves the order of equal scores unspecified. The model breaks ties in input order. Every property stated about the selection holds for any order of ties.
- WordDtoService.Score: scores are exact reals. float64 rounding of the hour fractions and weights is not modelled.
- WordDtoService.MakeHistoryMap: a word identifier and the canonical string of a UUID are identified. `uuid.UUID.String()` formatting is not modelled.
- Randomness is not modelled as probability. Each shuffle is a function of an explicit draw stream, and the properties hold for every stream. Seeding from the clock is left out.
- UUID parsing (`uuid.Parse`) is a foreign library. It is the parameter `ControllersAdapter.UuidParser`.
- WordServiceAdapter.MapWordToDto: Go returns nil slices for a word without tags or levels, and the model returns empty sequences. A nil level pointer, which would panic in the source, cannot occur in the model.
- Strings are sequences of characters. Go's byte-level string handling and UTF-8 encoding are not modelled.
- `ListWordsDtoByIDs` and `ReadWord` in `services/word_dto_service.go` are not part of this model. They are repository lookups followed by `MapWordToDto`, which is modelled.
- The callers of `fetchAndValidateWords` and `processWordsWithLearningHistory` are not modelled. Both functions are modelled on their own.
- Concurrency between requests, database transactions and locking are not modelled. The source does none of them.

## Findings

| source | as written | input that shows it | evidently intended | confidence | as-written member | corrected member |
|---|---|---|---|---|---|---|
| controllers/controllers_adapter.go:70-73 | A negative value writes a 400 response, but the helper returns `(0, nil)`, so the caller sees no error and carries on with 0. | `nb=-1` | Return an error whenever the 400 is written. | medium, not executed | `ControllersAdapter.GetQueryParamIntAsWritten`, shown by `ControllersAdapter.NegativeIntAcceptedWithoutError` | `ControllersAdapter.GetQueryParamInt` |
| controllers/controllers_adapter.go:62 | The helper reads `c.Param` (a path parameter). The word-identifier route `/words/q` (initialisation/initialisation.go:41) has no `:nb` segment, so `nb` is always the default 30 (controllers/word_dto_controller.go:47). | `GET /words/q?nb=5` selects up to 30 words, not 5 | Read `c.Query`, as the helper's name and documentation say. | high, not executed | `ControllersAdapter.GetQueryParamIntAsWritten`, shown by `ControllersAdapter.RequestedCountIgnoredOnQuizRoute` | `ControllersAdapter.GetQueryParamInt` |
