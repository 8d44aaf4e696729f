# Vocabulary trainer core, modelled in Dafny

The application is a web app for Vietnamese speakers learning English. Its core is modelled here:

- **Spaced-repetition scheduler** (`srs.dfy`, module `Srs`). Grading a word `again`, `good` or `easy` moves its study record along an eight-step interval table of 1 to 365 days. The catalog splits into words due for review and words never studied.
- **Application shell bookkeeping** (`app.dfy`, module `App`). The signed-in learner's progress store, the daily goals with their streak, and the weekly challenges. The class `App.AppState` holds the state the shell updates: `currentUser`, `studyProgress`, `dailyProgress`. The search box's word filter is here too.
- **Placement test scoring** (`placement.dfy`, module `PlacementTest`). It counts correct answers overall and per CEFR level and computes each level's rounded percentage. It also fixes the assigned level: the assessment service's answer, or a fallback rule when the service fails.
- **Flashcard screen** (`flashcard_view.dfy`, module `FlashcardView`). The deck is chosen by category, then by review/new mode. The counts above it are computed here. The class `FlashcardView.FlashcardSession` walks the deck cyclically and removes each card once it is answered.
- **Flashcard** (`flashcard.dfy`, module `Flashcard`). The card's border status (new, learning, graduated) and the split of the example sentence `English (Vietnamese)`.
- **Story screen** (`ai_story.dfy`, module `AIStory`). The class `AIStory.StorySelection` toggles between three and five picked words. The module also guards story generation and splits the reply at its separator.
- **Support modules.** `Common` (Option, Min), `Types` (words, study records, categories, CEFR levels), `Seqs` (a model of `Array.prototype.filter` and of subsequences) and `Strings` (JavaScript's `trim`, `indexOf`, `includes`, and `toUpperCase`/`toLowerCase` on ASCII letters). `WordLists` holds word lists keyed by their English text.

Conventions of the model:

- Time is an integer number of minutes. A day is 1440 minutes. Calendar dates are integer day numbers, so "yesterday" is `today - 1`.
- The clock is a parameter (`now`, `today`).
- A reply from the generative-AI service is an `Option<string>` parameter. `None` means the call failed.
- `srsLevel` is an unbounded `int`, as the stored record's `number` is. The model can therefore reach the branch of `calculateNextReview` that only a negative level enters.

## Model

| member | source | states |
|---|---|---|
| Srs.GetInitialRecord | services/srsService.ts:15-19 | The seed record has level 0, no last answer, and is reviewable now. |
| Srs.ClampedLevel | services/srsService.ts:29-38 | After a grade the level never exceeds the length of the interval table (8). |
| Srs.CalculateNextReview | services/srsService.ts:21-58 | `again` resets to level 0 with a review 10 minutes later. `good`/`easy` from level L ≥ 0 give min(L+1 or L+2, 8), at least 1, reviewed after that level's table interval in days. From a negative level L the raised level L+1 or L+2 is kept. If it is positive, the review follows the table. Otherwise level 0 becomes 1, a negative level stays, and the review comes one day later. The next review always lies after `now`, and the grade is recorded as the last answer. |
| Srs.FirstSuccessBranchUnreachable | services/srsService.ts:45-51 | From a non-negative level the "first time seeing good/easy" branch is never taken. |
| Srs.FirstSuccessBranchNeedsNegativeLevel | services/srsService.ts:48-50 | That branch is taken only for a negative level and a non-`again` grade. |
| Srs.OnlyLevelMatters | services/srsService.ts:21-58 | The next record depends only on the level, the grade and the clock, not on the old review date or last answer. |
| Srs.SuccessAdvances | services/srsService.ts:31-38 | `good` below level 8 adds exactly one level; `easy` at level 6 or below adds exactly two. |
| Srs.TopLevelIsSticky | services/srsService.ts:38-47 | At level 8 a success keeps level 8 and schedules the review 365 days ahead. |
| Srs.EasyFromLevelThree | services/srsService.ts:33-47 | `easy` at level 3 jumps to level 5 with a 30-day interval. |
| Srs.RepeatedGoodClimbsToTop | services/srsService.ts:31-38 | n consecutive `good` grades from level L in 0..8 reach level min(L+n, 8). |
| Srs.GetWordsToReview | services/srsService.ts:60-70 | The result keeps catalog order and multiplicity. It holds exactly the words with a record whose level is not 0 and whose review time has come. |
| Srs.GetNewWords | services/srsService.ts:72-74 | The result keeps catalog order and multiplicity. It holds exactly the words without a record. |
| Srs.GetWordsForSession | services/srsService.ts:76-80 | The two lists are the two queries, share no word, and together are no longer than the catalog. |
| Srs.SessionPartition | services/srsService.ts:60-74 | A catalog word is new, due, not yet due, or reset to level 0 with a record. The new list holds exactly the first kind and the review list exactly the second. |
| Srs.EmptyCatalog | services/srsService.ts:76-80 | An empty catalog gives two empty lists. |
| Srs.EmptyStore | services/srsService.ts:72-80 | With no records, every word is new and none is due. |
| Srs.AgainHidesWord | services/srsService.ts:60-74 | A word just graded `again` is in neither list at any time, until it is graded again. This covers a word with a record and a new word, which is graded from the seed record. |
| Srs.SuccessSchedulesWord | services/srsService.ts:60-74 | A word just graded `good`/`easy` leaves the new list and is due exactly once its new review time has come. |
| Srs.FirstGoodScenario | services/srsService.ts:42-47 | A new word graded `good` gets level 1. It is not due 30 minutes later and is due 25 hours later. |
| App.InitializeDailyProgress | App.tsx:56-94 | A record from today is kept as is. Otherwise the day starts with the nine default goals. The streak is +1 after a fully met yesterday, 0 after an unmet yesterday, and 1 after a gap or with no record. |
| App.NewDayGoalsStartEmpty | App.tsx:81-91 | Every default goal starts at 0 below a positive target, so a new day's goals are not met. |
| App.InitializeIsIdempotent | App.tsx:65-68 | Initialising again on the same day changes nothing. |
| App.StreakNonNegative | App.tsx:63-78 | The streak stays non-negative. |
| App.IdleDayBreaksStreak | App.tsx:69-75 | A day started and left without progress gives streak 0 the next day. |
| App.BumpGoals | App.tsx:203-208 | Goals of the activity's type move to min(target, current + amount). Every other goal is unchanged. Ids, descriptions, types and targets are kept, and the list keeps its length. |
| App.BumpGoalsRules | App.tsx:203-208 | A goal of the activity's type never passes its target. A goal that had not passed its target still has not, and with a non-negative amount it does not go backwards. |
| App.ChallengeLoop | App.tsx:215-230 | When no challenge was touched, the challenge map comes out unchanged. |
| App.ChallengeStepIsLocal | App.tsx:216-228 | One pass changes only its own challenge's entry, as a function of that entry. |
| App.ChallengeLoopLeavesOthers | App.tsx:216-218 | Entries of challenges not in the list, or of another goal type, are unchanged by the loop. |
| App.ChallengeLoopAt | App.tsx:216-228 | With distinct ids, each challenge's entry after the loop is its entry after one pass of the loop body. |
| App.ChallengeRules | App.tsx:216-228 | A completed challenge or one of another type is left alone. Otherwise its count becomes min(target, before + amount) and it is completed exactly when the count reaches the target. |
| App.ChallengesStayConsistent | App.tsx:219-223 | The loop keeps every challenge entry within its target and completed exactly when the target is reached. |
| App.RunChallenges | App.tsx:215-230 | The imperative `forEach` loop, run over a challenge list, computes exactly the challenge map and changed flag of the loop specification. `GoalUpdate` runs it over the weekly challenges. |
| App.EmptyQueryMatchesEverything | App.tsx:260-265 | The empty query occurs in every word. |
| App.FilteredWords | App.tsx:259-266 | The search result keeps catalog order. It holds exactly the words whose English or Vietnamese text contains the query, ignoring case, each as many times as the catalog lists it. |
| App.EmptyQueryShortcutAgrees | App.tsx:259-266 | The empty-query shortcut returns what filtering with the empty query would. |
| App.AppState.constructor | App.tsx:47-49 | No user, an empty progress store and no daily progress. |
| App.AppState.LoginSuccess | App.tsx:108-115 | The user is adopted with their stored progress (or an empty one) and today's initialised daily progress. |
| App.AppState.Logout | App.tsx:171-177 | User, progress store and daily progress are cleared. |
| App.AppState.GoalUpdate | App.tsx:196-237 | Signed out, nothing changes. Signed in, the day's goals of the type are bumped, the user's challenge map is replaced exactly when the loop touched a challenge, and the progress store is unchanged. |
| App.AppState.BumpDailyGoals | App.tsx:202-212 | The day's goals become their bumped versions. User and progress store are unchanged. |
| App.AppState.UpdateStudyProgress | App.tsx:179-194 | The graded word's record becomes its next record (from the seed record for a new word), and no other record changes. The daily progress and the user's challenge progress take one `learn_new` unit when a new word is learned (a success on a word without a record) and then one `review_srs` unit. |
| App.GradingBumpsGoals | App.tsx:189-193 | The intended effect of a grade on the daily goals: `review_srs` goals gain one unit, and `learn_new` goals gain one exactly when a new word was learned, both capped at the target. The date, the streak and every other goal are kept. |
| App.DailyAfterGradingAsWritten | App.tsx:189-210 | As the shell runs it, both goal updates build on the same daily progress and the `review_srs` write comes last, so the result is the `review_srs` bump alone. |
| App.StaleClosureLosesLearnNew | App.tsx:189-210 | On a first success on a new word, an unfinished `learn_new` goal stays where it was as written, and rises by one under the intended update. |
| App.AppState.ResetStudyProgress | App.tsx:239-247 | Signed in, exactly the given keys are deleted from the progress store. Nothing else changes. |
| App.GradingTouchesOneRecord | App.tsx:182-187 | Grading adds or replaces the graded word's record and leaves every other record as it was. |
| App.ResetMakesWordsNew | App.tsx:241-245 | After a reset, each reset word is new again and every other word keeps its record. |
| PlacementTest.ScoreAnswers | components/PlacementTestView.tsx:204-223 | The score is the number of questions answered correctly. The incorrect list is the wrong or unanswered questions in test order, with "Chưa trả lời" for a missing answer. Each level present in the test gets its correct count and question count. |
| PlacementTest.Percentage | components/PlacementTestView.tsx:231 | For a positive total the result is 100·correct/total rounded to the nearest integer, halves up. It lies in 0..100 when 0 ≤ correct ≤ total. A zero total gives 0. |
| PlacementTest.PercentageRounds | components/PlacementTestView.tsx:231 | The integer formula lies within half a unit of the exact percentage and within 0..100. |
| PlacementTest.ComputePerformance | components/PlacementTestView.tsx:225-233 | The `for...in` loop gives every level of the tally its counts plus the percentage, and no other level. |
| PlacementTest.ScoreAndIncorrectCoverTest | components/PlacementTestView.tsx:204-223 | Score plus the number of incorrect questions equals the number of questions. |
| PlacementTest.CorrectWithinTotal | components/PlacementTestView.tsx:206-213 | A level's correct count never exceeds its question count. |
| PlacementTest.LevelsAddUp | components/PlacementTestView.tsx:204-213 | The six levels' correct counts add up to the score, and their question counts to the test length. |
| PlacementTest.PercentagesInRange | components/PlacementTestView.tsx:225-233 | Every level in the analysis has questions, a correct count within them, and a percentage in 0..100. |
| PlacementTest.PassedRunFrom | components/PlacementTestView.tsx:277-284 | The walk from a level stops at the first level not passed (absent or under 50%). Every level before the stop was passed. |
| PlacementTest.DetermineFallbackLevel | components/PlacementTestView.tsx:274-284 | The loop with `break` returns the last level of the passed run A1, A2, …, or A1 when A1 itself was not passed. |
| PlacementTest.FallbackIsHighestPassedRun | components/PlacementTestView.tsx:274-284 | The fallback level is A1 or has all levels up to it passed, and every fully passed run of levels from A1 ends at or below it. |
| PlacementTest.ParseLevel | components/PlacementTestView.tsx:262-265 | A text is accepted exactly when it is one of the six level names, and then as that level. |
| PlacementTest.AcceptAiLevel | components/PlacementTestView.tsx:261-265 | The service's reply, trimmed and upper-cased, is the level when it names one, and A2 otherwise. |
| PlacementTest.AcceptAiLevelRoundTrip | components/PlacementTestView.tsx:261-265 | A reply that is exactly a level's name gives that level. |
| PlacementTest.HandleSubmit | components/PlacementTestView.tsx:192-290 | Submission is refused exactly when the number of answered questions differs from the number of questions. Otherwise the analysis holds the score, the length, the incorrect list and the per-level performance. The level is the accepted service reply, or the fallback level when the call failed. |
| PlacementTest.AllAnsweredIffCountMatches | components/PlacementTestView.tsx:188-190 | With distinct question ids and answers only under those ids, counting answers decides exactly whether every question is answered. |
| FlashcardView.FindCategoryFrom | components/FlashcardView.tsx:44 | The index of the first category with the id, or none when no category has it. |
| FlashcardView.CategoryFilteredWords | components/FlashcardView.tsx:42-46 | "all" gives every word. An id no category has gives no words. Otherwise the result is the words of the first category with that id. |
| FlashcardView.FinalFilteredWords | components/FlashcardView.tsx:52-57 | The review deck is the due words and the new deck the unrecorded words, each in catalog order. |
| FlashcardView.ComputeStudyCounts | components/FlashcardView.tsx:59-66 | The counts are the lengths of the two session lists and of the category's words. The first two never add up to more than the third. |
| FlashcardView.CountsMatchDecks | components/FlashcardView.tsx:52-66 | The count shown for a mode is the size of that mode's deck. |
| FlashcardView.JsRem | components/FlashcardView.tsx:96 | JavaScript's `%` with a positive divisor: the truncated-division identity holds, the remainder lies strictly between -n and n, and it has the dividend's sign. |
| FlashcardView.NextIndex | components/FlashcardView.tsx:93-98 | 0 on an empty deck. Otherwise the result stays within the deck, moves to the following card, and wraps from the last card to 0. |
| FlashcardView.PrevIndex | components/FlashcardView.tsx:100-105 | 0 on an empty deck. Otherwise the result stays within the deck, moves to the preceding card, and wraps from 0 to the last card. |
| FlashcardView.NextPrevInverse | components/FlashcardView.tsx:93-105 | On a non-empty deck, next and previous undo each other. |
| FlashcardView.AdvanceWalksInOrder | components/FlashcardView.tsx:93-98 | k steps forward from i land on i+k, wrapped once past the end. |
| FlashcardView.FullCycleReturns | components/FlashcardView.tsx:93-98 | n steps forward on an n-card deck return to the same card. |
| FlashcardView.FlashcardSession.constructor | components/FlashcardView.tsx:30-33 | An empty deck at index 0. |
| FlashcardView.FlashcardSession.LoadDeck | components/FlashcardView.tsx:83-91 | The deck becomes the shuffled selection, with the same cards, from index 0. |
| FlashcardView.FlashcardSession.GoToNext | components/FlashcardView.tsx:93-98 | The index moves as `NextIndex` says and the deck is unchanged. |
| FlashcardView.FlashcardSession.GoToPrevious | components/FlashcardView.tsx:100-105 | The index moves as `PrevIndex` says and the deck is unchanged. |
| FlashcardView.FlashcardSession.HandleAnswer | components/FlashcardView.tsx:107-115 | The word is graded in the application state: the record, the daily goals and the challenge progress change as `App.AppState.UpdateStudyProgress` states. Nothing changes when no one is signed in. Every card with its English key leaves the deck, the rest keep their order, and the index becomes min(old index, old length − 2). |
| FlashcardView.RemoveDistinctKey | components/FlashcardView.tsx:111 | With distinct keys, answering card i removes exactly that card. |
| FlashcardView.AnswerShowsNeighbour | components/FlashcardView.tsx:107-115 | With distinct keys, the handler's own updates shrink the deck by one. The index it sets then points at the following card, or at the previous one after the last card. It is -1 exactly when the deck is used up. |
| FlashcardView.DuplicateKeysLeaveIndexPastEnd | components/FlashcardView.tsx:111-113 | Without distinct keys the handler's index can point past the end: answering the middle of [w, w, x] leaves [x] with index 1. |
| FlashcardView.ResetKeys | components/FlashcardView.tsx:123 | The keys to reset are exactly the English texts of the category's words, one per word. |
| FlashcardView.ResetCategoryMakesAllNew | components/FlashcardView.tsx:117-126 | After resetting a category, all its words are new and none is due. |
| WordLists.RemoveWord | components/AIStoryView.tsx:35 | Removing a key keeps the order and multiplicity of every other entry, and drops every entry with the key. |
| WordLists.RemoveAbsentKey | components/AIStoryView.tsx:33-35 | Removing a key that is absent changes nothing. |
| WordLists.RemoveKeepsDistinct | components/AIStoryView.tsx:33-35 | Removing a key keeps distinct keys distinct. |
| AIStory.StoryWordList | components/AIStoryView.tsx:24-29 | The "review" filter gives exactly the due words, in catalog order and with their catalog multiplicity; "all" gives every word. |
| AIStory.Toggle | components/AIStoryView.tsx:31-43 | After a toggle the word is selected exactly when it was not before and there was room for it. Other words keep their multiplicity. An appended word goes at the end. A full selection ignores a new word. A removal keeps the order of the rest. The selection grows by at most one and only up to 5. |
| AIStory.ToggleKeepsSelectionValid | components/AIStoryView.tsx:31-43 | A toggle keeps the selection at 5 words or fewer with distinct keys. |
| AIStory.ToggleTwiceRestores | components/AIStoryView.tsx:31-43 | Toggling an unselected word twice, with room, gives back the original selection. |
| AIStory.StorySelection.constructor | components/AIStoryView.tsx:17 | The selection starts empty. |
| AIStory.StorySelection.ToggleWord | components/AIStoryView.tsx:31-43 | The selection becomes its toggle, and a valid selection stays valid. |
| AIStory.SplitStory | components/AIStoryView.tsx:73-80 | Without the separator, the trimmed reply is the English text and the translation is "AI không cung cấp bản dịch.". With it, the English text is the trimmed text before its first occurrence. The translation is the trimmed segment after it, up to the next separator. |
| AIStory.SecondSegment | components/AIStoryView.tsx:74-76 | The translation segment is a prefix of the remaining text that contains no separator. It ends exactly at the first separator, or at the end when there is none. |
| AIStory.NoDashEndsBeforeSeparator | components/AIStoryView.tsx:57 | A text without `-` ends before a separator appended to it, since every separator starts with `-`. |
| AIStory.SecondSegmentStops | components/AIStoryView.tsx:74-76 | A translation that ends before the separator (hyphens allowed), followed by a separator, is cut exactly at that separator. |
| AIStory.SeparatorAfterStory | components/AIStoryView.tsx:73-75 | After a story that ends before the separator (hyphens allowed), the first separator is found right at the story's end, whatever follows it. |
| AIStory.SplitStoryRoundTrip | components/AIStoryView.tsx:73-77 | A reply of story, separator and translation splits back into the trimmed story and the trimmed translation. This needs a story in which no separator starts before its end, and a translation without the separator. |
| AIStory.SplitStoryDropsThirdSegment | components/AIStoryView.tsx:74-77 | Only the text between the first and second separator becomes the translation; the text after the second is dropped. |
| AIStory.HyphenatedStorySplits | components/AIStoryView.tsx:73-77 | A hyphenated story ("well-known") splits back into the trimmed story and the trimmed translation. |
| AIStory.GenerateStory | components/AIStoryView.tsx:45-88 | Refused exactly below 3 selected words. Otherwise a failed call gives an error, and a reply gives its split. |
| AIStory.StorySelectionSize | components/AIStoryView.tsx:13-14 | A valid selection that may start a story holds 3 to 5 words. |
| Flashcard.GetCardStatus | components/Flashcard.tsx:27-31 | New exactly without a record or at level 0. Learning exactly at levels 1 to 4. Graduated exactly at level 5 or more, or at a negative level. Every record gets exactly one status. |
| Flashcard.NewCardIffNewOrReset | components/Flashcard.tsx:28 | A card shows as new exactly when its word is new or reset to level 0. |
| Flashcard.StatusAfterGrading | components/Flashcard.tsx:27-31 | After `again` a card shows as new, and after a first success from level 0 as learning. Five `good` grades in a row from a level in 0..8 show it as graduated. |
| Flashcard.BeforeFirstParen | components/Flashcard.tsx:13 | The text before the first `(`, or the whole text when there is none. |
| Flashcard.EnglishExample | components/Flashcard.tsx:13 | The English half is the trimmed text before the first `(` (all of the text when there is none). It contains no `(` and has no surrounding whitespace. |
| Strings.TrimIsSlice | components/Flashcard.tsx:13 | `trim` keeps a contiguous slice and drops only whitespace before and after it. |
| Flashcard.GroupAt | components/Flashcard.tsx:14 | The regular expression `\(([^)]+)\)` at one index: a group is found exactly when a non-empty text free of `)` occurs there in parentheses, and the group is that text. |
| Flashcard.OpenAt | components/Flashcard.tsx:14 | An occurrence of `(t)` fixes the characters of the example at those positions. |
| Flashcard.GroupBetween | components/Flashcard.tsx:14 | The text between a `(` and a later `)` occurs there in parentheses. |
| Flashcard.NoOpen | components/Flashcard.tsx:14 | No group starts where there is no `(`. |
| Flashcard.CloseIsFirst | components/Flashcard.tsx:14 | A group opening at i closes at the first `)` after i. |
| Flashcard.NoClose | components/Flashcard.tsx:14 | Without a later `)` no group opens. |
| Flashcard.FirstGroupFrom | components/Flashcard.tsx:14 | A found group is non-empty and free of `)`. It occurs in parentheses at an index before which no match starts, so it is the leftmost match. `None` means no match starts at or after the start index. |
| Flashcard.VietnameseExample | components/Flashcard.tsx:14 | The Vietnamese half is the group of the leftmost match. It is empty exactly when the example has no match. |
| Flashcard.FirstGroupSkips | components/Flashcard.tsx:14 | Positions without `(` never start a match. |
| Flashcard.NoParenthesis | components/Flashcard.tsx:13-14 | Without `(`, the English half is the whole trimmed example and the Vietnamese half is empty. |
| Flashcard.GroupUnique | components/Flashcard.tsx:14 | At most one group free of `)` opens at an index. |
| Flashcard.EnglishHalf | components/Flashcard.tsx:13 | The English half of "english (…" is the trimmed English. |
| Flashcard.VietnameseHalf | components/Flashcard.tsx:14 | The first group after a `(`-free prefix is the Vietnamese text. |
| Flashcard.ExampleRoundTrip | components/Flashcard.tsx:13-14 | "english (vietnamese)" splits back into the trimmed English and the Vietnamese, when the English has no `(` and the Vietnamese is non-empty and free of `)`. |

## Findings

| source | as written | input that shows it | evidently intended | confidence | as-written member | corrected member |
|---|---|---|---|---|---|---|
| App.tsx:189-210 | After a grade, the two goal updates both build on the `dailyProgress` captured by the handler, and the `review_srs` write replaces the `learn_new` write. | A first `good` on a new word while the daily `learn_new` goal stands at 0 of 10: the goal stays at 0. | The `learn_new` goal rises by one, then `review_srs` rises by one. | high; not executed | App.DailyAfterGradingAsWritten, App.StaleClosureLosesLearnNew | App.DailyAfterGrading, App.GradingBumpsGoals |

## Left out

- All calls to the generative-AI service (placement assessment, story generation, prompts and the prompt texts). A reply is a parameter, and a failed call is `None`.
- Persistence through the `api` service (`updateProgress`, `updateDailyProgress`, `updateUser`, `logout`, `checkSession`): network I/O. The model keeps the state in memory only.
- Random shuffles of the placement questions and of the flashcard deck (`handleShuffle`). `FlashcardView.FlashcardSession.LoadDeck` takes the shuffled order as a parameter, constrained to be a permutation of the deck.
- Real `Date` handling: ISO strings, local-calendar `setDate`/`setMinutes`, daylight-saving time and month rollover. Minutes and day numbers replace them.
- React scheduling: `setState` batching, stale closures, effects and the 300 ms `setTimeout` in `handleAnswer`. Each handler is modelled as running to completion on the current state.
- App.AppState.UpdateStudyProgress: applies the `learn_new` and then the `review_srs` goal update one after the other, as intended (see "## Findings"). In the source, both `handleGoalUpdate` calls run in the same render's closure (App.tsx:190-193). Each one synchronously writes goals built from that same `dailyProgress` (App.tsx:203-210), so the `review_srs` write always replaces the `learn_new` write. Both calls also start from the same stale `currentUser` (App.tsx:198, 215). A challenge entry that one of them creates anew is therefore lost whenever the other call's `setCurrentUser` runs last; which one runs last depends on when the network calls return.
- App.GradingBumpsGoals: states the intended `learn_new` bump, which the source as written always loses (`App.DailyAfterGradingAsWritten`, `App.StaleClosureLosesLearnNew`).
- App.AppState.GoalUpdate: does not make the nested, asynchronous `handleGoalUpdate('complete_challenge', 1)` call issued when a challenge completes (App.tsx:224). That call re-enters the handler on stale state and its effect depends on React scheduling.
- App.RunChallenges: the source mutates the challenge entry object in place. That object is shared with the current user's map through a shallow copy, so the old user value is changed too. The model replaces map entries by value and does not capture this aliasing.
- `handleRegister` (App.tsx:117-128) repeats the login bookkeeping after a network call; `App.AppState.LoginSuccess` covers that bookkeeping.
- User fields not used by the core (`password`, `level`, `placementTestResult`), question `options` display, challenge titles and descriptions, and `handlePlacementTestComplete`, which posts the result to the server.
- PlacementTest.Percentage: exact integer arithmetic. The source's floating-point `correct / total * 100` can round differently where that product is not exact.
- `toUpperCase`/`toLowerCase` map only ASCII letters. This is exact for recognising level names. For search over non-ASCII text the model is case-sensitive where JavaScript folds case.
- `groupedCategories`/`sortedLevels` in the flashcard screen, rendering, keyboard shortcuts, audio and the story text highlighting: presentation only.
- The story screen's `onGoalUpdate` is wired to a no-op by the application shell (App.tsx:284), so a generated story updates no goal.
- FlashcardView.AnswerShowsNeighbour: needs distinct English keys in the deck. Without them the index the handler sets can point past the end (`FlashcardView.DuplicateKeysLeaveIndexPastEnd`).
- The `[finalFilteredWords]` effect of the flashcard screen (components/FlashcardView.tsx:83-86). Every grade changes `studyProgress`, so the review and new lists are recomputed. The effect then reshuffles the deck and sets the index to 0. `FlashcardView.FlashcardSession.HandleAnswer` and the lemmas about it describe only the handler's own updates. The card actually shown after an answer depends on this effect and on React scheduling.
