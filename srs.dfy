/**
 * The spaced-repetition scheduler: the grading transition on a study record and the queries that
 * split a word catalog into words due for review and words never studied.
 */
module Srs {
  import opened Common
  import opened Types
  import opened Seqs

  /** Days until the next review, for levels 1 to 8. */
  const SRS_INTERVALS: seq<int> := [1, 3, 7, 14, 30, 90, 180, 365]

  /** The highest level a record can reach: the length of the interval table. */
  const MAX_LEVEL: int := |SRS_INTERVALS|

  const MINUTES_PER_DAY: int := 1440

  /** An `again` grade brings the word back after this many minutes. */
  const AGAIN_DELAY_MINUTES: int := 10

  /** The seed record of a word about to be graded for the first time. */
  function GetInitialRecord(now: Timestamp): (r: StudyRecord)
    ensures r.srsLevel == 0 && r.nextReview == now && r.lastAnswer == None
  {
    StudyRecord(0, now, None)
  }

  /** How many levels a grade adds; `again` is handled by a reset instead. */
  function Step(grade: Grade): int {
    match grade
    case Again => 0
    case Good => 1
    case Easy => 2
  }

  /** The level after the grade is applied and clamped to the table, before the fix-up of the last branch. */
  function ClampedLevel(level: int, grade: Grade): (l: int)
    ensures l <= MAX_LEVEL
  {
    var raised := if grade == Again then 0 else level + Step(grade);
    Min(raised, |SRS_INTERVALS|)
  }

  /** The three branches that compute the next review date. */
  datatype ReviewBranch = AgainDelay | TableInterval | FirstSuccess

  function BranchOf(grade: Grade, clamped: int): ReviewBranch {
    if grade == Again then AgainDelay
    else if clamped > 0 then TableInterval
    else FirstSuccess
  }

  /** The grading transition: the next study record after `grade` is given at time `now`. */
  function CalculateNextReview(current: StudyRecord, grade: Grade, now: Timestamp): (r: StudyRecord)
    ensures r.lastAnswer == Some(grade)
    ensures r.srsLevel <= MAX_LEVEL
    ensures now < r.nextReview
    ensures grade == Again ==> r.srsLevel == 0 && r.nextReview == now + AGAIN_DELAY_MINUTES
    ensures grade != Again && current.srsLevel >= 0 ==>
      && r.srsLevel == Min(current.srsLevel + Step(grade), MAX_LEVEL)
      && 1 <= r.srsLevel
      && r.nextReview == now + SRS_INTERVALS[r.srsLevel - 1] * MINUTES_PER_DAY
    ensures grade != Again && current.srsLevel < 0 ==>
      var raised := current.srsLevel + Step(grade);
      && (raised > 0 ==> r.srsLevel == raised && r.nextReview == now + SRS_INTERVALS[raised - 1] * MINUTES_PER_DAY)
      && (raised <= 0 ==> r.srsLevel == (if raised == 0 then 1 else raised) && r.nextReview == now + MINUTES_PER_DAY)
  {
    var clamped := ClampedLevel(current.srsLevel, grade);
    match BranchOf(grade, clamped)
    case AgainDelay =>
      StudyRecord(clamped, now + AGAIN_DELAY_MINUTES, Some(grade))
    case TableInterval =>
      StudyRecord(clamped, now + SRS_INTERVALS[clamped - 1] * MINUTES_PER_DAY, Some(grade))
    case FirstSuccess =>
      StudyRecord(if clamped == 0 then 1 else clamped, now + MINUTES_PER_DAY, Some(grade))
  }

  /** For a record with a non-negative level the "first success" branch is dead code. */
  lemma FirstSuccessBranchUnreachable(level: int, grade: Grade)
    requires level >= 0
    ensures BranchOf(grade, ClampedLevel(level, grade)) != FirstSuccess
  {
  }

  /** It is reached only from a negative level, which no transition ever produces. */
  lemma FirstSuccessBranchNeedsNegativeLevel(level: int, grade: Grade)
    requires BranchOf(grade, ClampedLevel(level, grade)) == FirstSuccess
    ensures level < 0 && grade != Again
  {
  }

  /** The input's `nextReview` and `lastAnswer` play no part: only the level, grade and clock do. */
  lemma OnlyLevelMatters(a: StudyRecord, b: StudyRecord, grade: Grade, now: Timestamp)
    requires a.srsLevel == b.srsLevel
    ensures CalculateNextReview(a, grade, now) == CalculateNextReview(b, grade, now)
  {
  }

  /** `good` from level L < 8 gives L + 1; `easy` from L <= 6 gives L + 2. */
  lemma SuccessAdvances(r: StudyRecord, now: Timestamp)
    requires 0 <= r.srsLevel
    ensures r.srsLevel < MAX_LEVEL ==> CalculateNextReview(r, Good, now).srsLevel == r.srsLevel + 1
    ensures r.srsLevel <= MAX_LEVEL - 2 ==> CalculateNextReview(r, Easy, now).srsLevel == r.srsLevel + 2
  {
  }

  /** At the top of the table `good` and `easy` keep the level and schedule a year ahead. */
  lemma TopLevelIsSticky(r: StudyRecord, grade: Grade, now: Timestamp)
    requires r.srsLevel >= MAX_LEVEL && grade != Again
    ensures CalculateNextReview(r, grade, now).srsLevel == MAX_LEVEL
    ensures CalculateNextReview(r, grade, now).nextReview == now + 365 * MINUTES_PER_DAY
  {
  }

  /** Level 3 graded `easy` skips level 4 and waits 30 days. */
  lemma EasyFromLevelThree(r: StudyRecord, now: Timestamp)
    requires r.srsLevel == 3
    ensures CalculateNextReview(r, Easy, now).srsLevel == 5
    ensures CalculateNextReview(r, Easy, now).nextReview == now + 30 * MINUTES_PER_DAY
  {
  }

  /** Grading `good` `n` times in a row, each at time `now`. */
  function RepeatGood(r: StudyRecord, n: nat, now: Timestamp): StudyRecord
    decreases n
  {
    if n == 0 then r else CalculateNextReview(RepeatGood(r, n - 1, now), Good, now)
  }

  /** Repeated success climbs one level at a time and then stays at the top of the table. */
  lemma {:induction false} RepeatedGoodClimbsToTop(r: StudyRecord, n: nat, now: Timestamp)
    requires 0 <= r.srsLevel <= MAX_LEVEL
    ensures RepeatGood(r, n, now).srsLevel == Min(r.srsLevel + n, MAX_LEVEL)
    decreases n
  {
    if n > 0 {
      RepeatedGoodClimbsToTop(r, n - 1, now);
    }
  }

  /** A word is due: it has a record, the record's level is not 0, and its review time has come. */
  predicate IsDue(progress: StudyProgress, w: Word, now: Timestamp) {
    w.english in progress && progress[w.english].srsLevel != 0 && progress[w.english].nextReview <= now
  }

  /** A word is new: the store has no record for it. */
  predicate IsNew(progress: StudyProgress, w: Word) {
    w.english !in progress
  }

  /** The catalog words due for review, in catalog order. */
  function GetWordsToReview(allWords: seq<Word>, progress: StudyProgress, now: Timestamp): (r: seq<Word>)
    ensures IsSubsequence(r, allWords)
    ensures forall w :: w in r <==> w in allWords && IsDue(progress, w, now)
    ensures forall w :: multiset(r)[w] == if IsDue(progress, w, now) then multiset(allWords)[w] else 0
  {
    var due := (w: Word) => IsDue(progress, w, now);
    FilterContents(allWords, due);
    Filter(allWords, due)
  }

  /** The catalog words with no record, in catalog order. */
  function GetNewWords(allWords: seq<Word>, progress: StudyProgress): (r: seq<Word>)
    ensures IsSubsequence(r, allWords)
    ensures forall w :: w in r <==> w in allWords && IsNew(progress, w)
    ensures forall w :: multiset(r)[w] == if IsNew(progress, w) then multiset(allWords)[w] else 0
  {
    var unseen := (w: Word) => IsNew(progress, w);
    FilterContents(allWords, unseen);
    Filter(allWords, unseen)
  }

  /** The two lists a study session is built from. */
  datatype SessionWords = SessionWords(wordsToReview: seq<Word>, newWords: seq<Word>)

  function GetWordsForSession(allWords: seq<Word>, progress: StudyProgress, now: Timestamp): (r: SessionWords)
    ensures r.wordsToReview == GetWordsToReview(allWords, progress, now)
    ensures r.newWords == GetNewWords(allWords, progress)
    ensures forall w :: !(w in r.wordsToReview && w in r.newWords)
    ensures |r.wordsToReview| + |r.newWords| <= |allWords|
  {
    var r := SessionWords(GetWordsToReview(allWords, progress, now), GetNewWords(allWords, progress));
    FilterDisjointLength(allWords, w => IsDue(progress, w, now), w => IsNew(progress, w));
    r
  }

  /** Where a catalog word stands at a given moment. */
  datatype Bucket = NewWord | DueWord | NotYetDue | ResetLimbo

  function BucketOf(progress: StudyProgress, w: Word, now: Timestamp): Bucket {
    if w.english !in progress then NewWord
    else if progress[w.english].srsLevel == 0 then ResetLimbo
    else if progress[w.english].nextReview <= now then DueWord
    else NotYetDue
  }

  /** Every catalog word is new, due, not yet due, or at level 0 with a record, and the session
      lists pick out exactly the first two kinds. */
  lemma SessionPartition(allWords: seq<Word>, progress: StudyProgress, now: Timestamp, w: Word)
    requires w in allWords
    ensures w in GetWordsForSession(allWords, progress, now).newWords <==> BucketOf(progress, w, now) == NewWord
    ensures w in GetWordsForSession(allWords, progress, now).wordsToReview <==> BucketOf(progress, w, now) == DueWord
  {
  }

  /** An empty catalog gives empty lists. */
  lemma EmptyCatalog(progress: StudyProgress, now: Timestamp)
    ensures GetWordsForSession([], progress, now) == SessionWords([], [])
  {
  }

  /** With an empty store every catalog word is new and none is due. */
  lemma EmptyStore(allWords: seq<Word>, now: Timestamp)
    ensures GetWordsForSession(allWords, map[], now) == SessionWords([], allWords)
  {
    FilterKeepsAll(allWords, w => IsNew(map[], w));
    FilterDropsAll(allWords, w => IsDue(map[], w, now));
  }

  /** A word graded `again` is hidden from both lists, at every later moment, until graded again. */
  lemma AgainHidesWord(allWords: seq<Word>, progress: StudyProgress, w: Word, t: Timestamp, now: Timestamp)
    ensures var before := if w.english in progress then progress[w.english] else GetInitialRecord(t);
      var p := progress[w.english := CalculateNextReview(before, Again, t)];
      w !in GetWordsToReview(allWords, p, now) && w !in GetNewWords(allWords, p)
  {
  }

  /** A word graded `good` or `easy` from a non-negative level leaves the new list and becomes due
      exactly when its review time has come. */
  lemma SuccessSchedulesWord(allWords: seq<Word>, progress: StudyProgress, w: Word, grade: Grade,
                             t: Timestamp, now: Timestamp)
    requires w in allWords && grade != Again
    requires w.english in progress ==> progress[w.english].srsLevel >= 0
    ensures var before := if w.english in progress then progress[w.english] else GetInitialRecord(t);
      var r := CalculateNextReview(before, grade, t);
      var p := progress[w.english := r];
      && w !in GetNewWords(allWords, p)
      && (w in GetWordsToReview(allWords, p, now) <==> r.nextReview <= now)
  {
  }

  /** First `good` at time T: not due half an hour later, due 25 hours later. */
  lemma FirstGoodScenario(allWords: seq<Word>, w: Word, t: Timestamp)
    requires w in allWords
    ensures var p := map[w.english := CalculateNextReview(GetInitialRecord(t), Good, t)];
      && p[w.english].srsLevel == 1
      && w !in GetWordsToReview(allWords, p, t + 30)
      && w in GetWordsToReview(allWords, p, t + 25 * 60)
  {
  }
}
