/**
 * The application shell's bookkeeping: the learner's progress store, the daily goals with their
 * streak, and the weekly challenges, updated as words are graded and activities completed.
 */
module App {
  import opened Common
  import opened Types
  import opened Strings
  import opened Seqs
  import Srs

  datatype GoalType =
    | LearnNew | ReviewSrs | CompleteQuiz | CompleteListening | CompleteConversation
    | CompletePronunciation | CompleteStory | CompleteAdvGrammar | CompleteReading
    | CompleteWriting | CompleteRoleplay | CompleteChallenge | CompleteVideoLesson | PostInForum

  datatype DailyGoal = DailyGoal(id: string, description: string, goalType: GoalType, target: int, current: int)

  /** Dates are day numbers; the day before `d` is `d - 1`. */
  datatype DailyProgress = DailyProgress(date: int, streak: int, goals: seq<DailyGoal>)

  datatype ChallengeEntry = ChallengeEntry(current: int, completed: bool)

  type ChallengeProgress = map<string, ChallengeEntry>

  datatype Challenge = Challenge(id: string, goalType: GoalType, target: int)

  /** The weekly challenges (titles and descriptions omitted). */
  const CHALLENGES: seq<Challenge> := [
    Challenge("c1", LearnNew, 20),
    Challenge("c2", CompleteRoleplay, 5),
    Challenge("c3", ReviewSrs, 50),
    Challenge("c4", CompleteWriting, 3)
  ]

  datatype User = User(
    name: string,
    studyProgress: Option<StudyProgress>,
    dailyProgress: Option<DailyProgress>,
    challengeProgress: Option<ChallengeProgress>)

  /** The goals every new day starts with. */
  const NEW_DAY_GOALS: seq<DailyGoal> := [
    DailyGoal("g1", "Học 10 từ mới", LearnNew, 10, 0),
    DailyGoal("g2", "Ôn tập 15 từ SRS", ReviewSrs, 15, 0),
    DailyGoal("g3", "Hoàn thành 1 bài đọc có hướng dẫn", CompleteReading, 1, 0),
    DailyGoal("g4", "Hoàn thành 1 bài nghe có hướng dẫn", CompleteListening, 1, 0),
    DailyGoal("g5", "Luyện giao tiếp 1 lần", CompleteConversation, 1, 0),
    DailyGoal("g6", "Hoàn thành 1 tình huống nhập vai", CompleteRoleplay, 1, 0),
    DailyGoal("g7", "Hoàn thành 1 thử thách", CompleteChallenge, 1, 0),
    DailyGoal("g8", "Xem 1 bài giảng video", CompleteVideoLesson, 1, 0),
    DailyGoal("g9", "Đăng 1 bài trong diễn đàn", PostInForum, 1, 0)
  ]

  predicate AllGoalsMet(goals: seq<DailyGoal>) {
    forall i :: 0 <= i < |goals| ==> goals[i].current >= goals[i].target
  }

  /** The day's progress at login: kept on the same day, otherwise a fresh day whose streak grows
      after a completed yesterday, drops to 0 after an incomplete one, and restarts at 1 after a gap. */
  function InitializeDailyProgress(stored: Option<DailyProgress>, today: int): (r: DailyProgress)
    ensures stored.Some? && stored.value.date == today ==> r == stored.value
    ensures stored.None? || stored.value.date != today ==>
      && r.date == today
      && r.goals == NEW_DAY_GOALS
      && r.streak == (if stored.Some? && stored.value.date == today - 1
                      then (if AllGoalsMet(stored.value.goals) then stored.value.streak + 1 else 0)
                      else 1)
  {
    if stored.Some? && stored.value.date == today then stored.value
    else
      var newStreak :=
        if stored.None? then 1
        else if stored.value.date == today - 1 then
          (if AllGoalsMet(stored.value.goals) then stored.value.streak + 1 else 0)
        else 1;
      DailyProgress(today, newStreak, NEW_DAY_GOALS)
  }

  /** A new day's goals all start at 0 with a positive target, so they are not yet met. */
  lemma NewDayGoalsStartEmpty()
    ensures forall i :: 0 <= i < |NEW_DAY_GOALS| ==> NEW_DAY_GOALS[i].current == 0 < NEW_DAY_GOALS[i].target
    ensures !AllGoalsMet(NEW_DAY_GOALS)
  {
    assert NEW_DAY_GOALS[0].current < NEW_DAY_GOALS[0].target;
  }

  /** Logging in twice on the same day gives the same progress as logging in once. */
  lemma InitializeIsIdempotent(stored: Option<DailyProgress>, today: int)
    ensures InitializeDailyProgress(Some(InitializeDailyProgress(stored, today)), today)
         == InitializeDailyProgress(stored, today)
  {
  }

  /** The streak is never negative if the stored one was not. */
  lemma StreakNonNegative(stored: Option<DailyProgress>, today: int)
    requires stored.Some? ==> stored.value.streak >= 0
    ensures InitializeDailyProgress(stored, today).streak >= 0
  {
  }

  /** A day started but left without progress breaks the streak the next day. */
  lemma IdleDayBreaksStreak(stored: Option<DailyProgress>, today: int)
    requires stored.None? || stored.value.date != today
    ensures InitializeDailyProgress(Some(InitializeDailyProgress(stored, today)), today + 1).streak == 0
  {
    NewDayGoalsStartEmpty();
  }

  /** One goal after `amount` units of activity of type `t`, capped at its target. */
  function BumpGoal(g: DailyGoal, t: GoalType, amount: int): DailyGoal {
    if g.goalType == t then g.(current := Min(g.target, g.current + amount)) else g
  }

  /** `goals.map(...)` in `handleGoalUpdate`: goals of type `t` move to `min(target, current +
      amount)`, all other goals are untouched, and ids, descriptions, types and targets are kept. */
  function BumpGoals(goals: seq<DailyGoal>, t: GoalType, amount: int): (r: seq<DailyGoal>)
    ensures |r| == |goals|
    ensures forall i :: 0 <= i < |goals| ==>
      && r[i].id == goals[i].id && r[i].description == goals[i].description
      && r[i].goalType == goals[i].goalType && r[i].target == goals[i].target
      && (goals[i].goalType != t ==> r[i] == goals[i])
      && (goals[i].goalType == t ==> r[i].current == Min(goals[i].target, goals[i].current + amount))
  {
    seq(|goals|, i requires 0 <= i < |goals| => BumpGoal(goals[i], t, amount))
  }

  /** A goal of type `t` never passes its target; a goal that had not passed its target still has
      not, and with a non-negative amount it does not go backwards. */
  lemma BumpGoalsRules(goals: seq<DailyGoal>, t: GoalType, amount: int)
    ensures var r := BumpGoals(goals, t, amount);
      forall i :: 0 <= i < |goals| ==>
        && (goals[i].goalType == t ==> r[i].current <= r[i].target)
        && (goals[i].current <= goals[i].target ==>
              r[i].current <= r[i].target && (amount >= 0 ==> r[i].current >= goals[i].current))
  {
  }

  /** The daily progress after `handleGoalUpdate(t, amount)`. */
  function BumpDaily(dp: Option<DailyProgress>, t: GoalType, amount: int): Option<DailyProgress> {
    if dp.Some? then Some(dp.value.(goals := BumpGoals(dp.value.goals, t, amount))) else dp
  }

  function Lookup(cp: ChallengeProgress, id: string): Option<ChallengeEntry> {
    if id in cp then Some(cp[id]) else None
  }

  /** A challenge of type `t` that is not completed is updated by the activity. */
  predicate Touches(cp: ChallengeProgress, c: Challenge, t: GoalType) {
    c.goalType == t && !(c.id in cp && cp[c.id].completed)
  }

  /** One pass of the challenge loop on one challenge. */
  function ChallengeStep(cp: ChallengeProgress, c: Challenge, t: GoalType, amount: int): ChallengeProgress {
    if !Touches(cp, c, t) then cp
    else
      var progress := if c.id in cp then cp[c.id] else ChallengeEntry(0, false);
      var current := Min(c.target, progress.current + amount);
      cp[c.id := ChallengeEntry(current, current >= c.target)]
  }

  /** The challenge map after the loop has run over `cs`, and whether any challenge was touched. */
  datatype ChallengeOutcome = ChallengeOutcome(progress: ChallengeProgress, changed: bool)

  function ChallengeLoop(cp: ChallengeProgress, cs: seq<Challenge>, t: GoalType, amount: int): (o: ChallengeOutcome)
    ensures !o.changed ==> o.progress == cp
    decreases |cs|
  {
    if cs == [] then ChallengeOutcome(cp, false)
    else
      var prev := ChallengeLoop(cp, cs[..|cs| - 1], t, amount);
      var c := cs[|cs| - 1];
      ChallengeOutcome(ChallengeStep(prev.progress, c, t, amount), prev.changed || Touches(prev.progress, c, t))
  }

  /** The user after `handleGoalUpdate(t, amount)`: its challenge map is replaced only if the loop
      touched a challenge. */
  function UserAfterGoal(user: User, t: GoalType, amount: int): User {
    var cp := if user.challengeProgress.Some? then user.challengeProgress.value else map[];
    var o := ChallengeLoop(cp, CHALLENGES, t, amount);
    if o.changed then user.(challengeProgress := Some(o.progress)) else user
  }

  predicate DistinctIds(cs: seq<Challenge>) {
    forall i, j :: 0 <= i < j < |cs| ==> cs[i].id != cs[j].id
  }

  /** A step only changes the entry of its own challenge, and that one only from its old value. */
  lemma ChallengeStepIsLocal(m: ChallengeProgress, m': ChallengeProgress, c: Challenge, t: GoalType, amount: int, id: string)
    ensures id != c.id ==> Lookup(ChallengeStep(m, c, t, amount), id) == Lookup(m, id)
    ensures Lookup(m, c.id) == Lookup(m', c.id) ==>
      Lookup(ChallengeStep(m, c, t, amount), c.id) == Lookup(ChallengeStep(m', c, t, amount), c.id)
  {
  }

  /** Entries of challenges outside `cs`, or of another type, come out of the loop unchanged. */
  lemma {:induction false} ChallengeLoopLeavesOthers(cp: ChallengeProgress, cs: seq<Challenge>, t: GoalType, amount: int, id: string)
    requires forall k :: 0 <= k < |cs| ==> cs[k].id != id || cs[k].goalType != t
    ensures Lookup(ChallengeLoop(cp, cs, t, amount).progress, id) == Lookup(cp, id)
    decreases |cs|
  {
    if cs != [] {
      var init := cs[..|cs| - 1];
      ChallengeLoopLeavesOthers(cp, init, t, amount, id);
      ChallengeStepIsLocal(ChallengeLoop(cp, init, t, amount).progress, cp, cs[|cs| - 1], t, amount, id);
    }
  }

  /** With distinct ids, each challenge's entry after the loop is one step from its entry before. */
  lemma {:induction false} ChallengeLoopAt(cp: ChallengeProgress, cs: seq<Challenge>, t: GoalType, amount: int, k: int)
    requires DistinctIds(cs) && 0 <= k < |cs|
    ensures Lookup(ChallengeLoop(cp, cs, t, amount).progress, cs[k].id)
         == Lookup(ChallengeStep(cp, cs[k], t, amount), cs[k].id)
    decreases |cs|
  {
    var init := cs[..|cs| - 1];
    var last := cs[|cs| - 1];
    var mid := ChallengeLoop(cp, init, t, amount).progress;
    if k == |cs| - 1 {
      ChallengeLoopLeavesOthers(cp, init, t, amount, last.id);
      ChallengeStepIsLocal(mid, cp, last, t, amount, last.id);
    } else {
      ChallengeLoopAt(cp, init, t, amount, k);
      ChallengeStepIsLocal(mid, cp, last, t, amount, cs[k].id);
    }
  }

  /** The rules of `handleGoalUpdate` for challenge `k`: completed or other-type challenges are left
      alone; otherwise `current` is clamped to the target and `completed` says whether it reached it. */
  lemma ChallengeRules(cp: ChallengeProgress, t: GoalType, amount: int, k: int)
    requires 0 <= k < |CHALLENGES|
    ensures var c := CHALLENGES[k];
      var after := Lookup(ChallengeLoop(cp, CHALLENGES, t, amount).progress, c.id);
      && (!Touches(cp, c, t) ==> after == Lookup(cp, c.id))
      && (Touches(cp, c, t) ==>
            var before := if c.id in cp then cp[c.id].current else 0;
            && after.Some?
            && after.value.current == Min(c.target, before + amount)
            && (after.value.completed <==> after.value.current >= c.target))
  {
    ChallengeLoopAt(cp, CHALLENGES, t, amount, k);
  }

  /** A challenge entry is consistent when its count is within target and it is completed exactly
      when the target is reached. */
  predicate ConsistentEntry(cp: ChallengeProgress, c: Challenge) {
    c.id in cp ==> cp[c.id].current <= c.target && (cp[c.id].completed <==> cp[c.id].current >= c.target)
  }

  /** The loop keeps every challenge entry consistent. */
  lemma ChallengesStayConsistent(cp: ChallengeProgress, t: GoalType, amount: int)
    requires forall k :: 0 <= k < |CHALLENGES| ==> ConsistentEntry(cp, CHALLENGES[k])
    ensures var after := ChallengeLoop(cp, CHALLENGES, t, amount).progress;
      forall k :: 0 <= k < |CHALLENGES| ==> ConsistentEntry(after, CHALLENGES[k])
  {
    var after := ChallengeLoop(cp, CHALLENGES, t, amount).progress;
    forall k | 0 <= k < |CHALLENGES|
      ensures ConsistentEntry(after, CHALLENGES[k])
    {
      ChallengeRules(cp, t, amount, k);
    }
  }

  /** The record a word is graded from: its stored one, or the seed record for a new word. */
  function RecordOrSeed(progress: StudyProgress, wordEnglish: string, now: Timestamp): StudyRecord {
    if wordEnglish in progress then progress[wordEnglish] else Srs.GetInitialRecord(now)
  }

  /** Words matching the search box: the query occurs, ignoring case, in the English or Vietnamese. */
  predicate MatchesQuery(w: Word, query: string) {
    Contains(ToLower(w.english), ToLower(query)) || Contains(ToLower(w.vietnamese), ToLower(query))
  }

  lemma EmptyQueryMatchesEverything()
    ensures forall w :: MatchesQuery(w, "")
  {
    forall w ensures MatchesQuery(w, "") {
      ContainsEmpty(ToLower(w.english));
    }
  }

  /** The word list shown for a search query, in catalog order. */
  function FilteredWords(allWords: seq<Word>, searchQuery: string): (r: seq<Word>)
    ensures IsSubsequence(r, allWords)
    ensures forall w :: w in r <==> w in allWords && MatchesQuery(w, searchQuery)
    ensures forall w :: multiset(r)[w] == if MatchesQuery(w, searchQuery) then multiset(allWords)[w] else 0
  {
    if searchQuery == "" then
      SubsequenceOfItself(allWords);
      EmptyQueryMatchesEverything();
      allWords
    else
      var matches := (w: Word) => MatchesQuery(w, searchQuery);
      FilterContents(allWords, matches);
      Filter(allWords, matches)
  }

  /** The empty-query shortcut returns what filtering with the empty query would. */
  lemma EmptyQueryShortcutAgrees(allWords: seq<Word>)
    ensures FilteredWords(allWords, "") == Filter(allWords, w => MatchesQuery(w, ""))
  {
    EmptyQueryMatchesEverything();
    FilterKeepsAll(allWords, w => MatchesQuery(w, ""));
  }

  /** The loop over one more challenge is one more step after the loop over the ones before. */
  lemma ChallengeLoopExtends(cp: ChallengeProgress, cs: seq<Challenge>, t: GoalType, amount: int, i: int)
    requires 0 <= i < |cs|
    ensures var prev := ChallengeLoop(cp, cs[..i], t, amount);
      ChallengeLoop(cp, cs[..i + 1], t, amount)
        == ChallengeOutcome(ChallengeStep(prev.progress, cs[i], t, amount), prev.changed || Touches(prev.progress, cs[i], t))
  {
    assert cs[..i + 1][..i] == cs[..i];
  }

  /** The `CHALLENGES.forEach` loop of `handleGoalUpdate`, over the list it is given: progress on
      every challenge of type `t` that is not yet completed, and whether any was touched. */
  method RunChallenges(start: ChallengeProgress, challenges: seq<Challenge>, t: GoalType, amount: int)
    returns (newChallengeProgress: ChallengeProgress, userChanged: bool)
    ensures ChallengeOutcome(newChallengeProgress, userChanged) == ChallengeLoop(start, challenges, t, amount)
  {
    newChallengeProgress := start;
    userChanged := false;
    for i := 0 to |challenges|
      invariant ChallengeOutcome(newChallengeProgress, userChanged) == ChallengeLoop(start, challenges[..i], t, amount)
    {
      var challenge := challenges[i];
      ghost var before := newChallengeProgress;
      ghost var changedBefore := userChanged;
      ChallengeLoopExtends(start, challenges, t, amount, i);
      if challenge.goalType == t {
        var progress := if challenge.id in newChallengeProgress then newChallengeProgress[challenge.id]
                        else ChallengeEntry(0, false);
        if !progress.completed {
          var current := Min(challenge.target, progress.current + amount);
          var completed := false;
          if current >= challenge.target {
            completed := true;
          }
          newChallengeProgress := newChallengeProgress[challenge.id := ChallengeEntry(current, completed)];
          userChanged := true;
        }
      }
      assert newChallengeProgress == ChallengeStep(before, challenge, t, amount);
      assert userChanged == (changedBefore || Touches(before, challenge, t));
    }
    assert challenges[..|challenges|] == challenges;
  }

  /** A grade counts as learning a new word when it is a success on a word without a record. */
  predicate LearnsNewWord(progress: StudyProgress, wordEnglish: string, grade: Grade) {
    grade != Again && wordEnglish !in progress
  }

  /** The daily progress after a grade: one `learn_new` unit for a learned word, then one
      `review_srs` unit for every grade. */
  function DailyAfterGrading(dp: Option<DailyProgress>, learned: bool): Option<DailyProgress> {
    BumpDaily(if learned then BumpDaily(dp, LearnNew, 1) else dp, ReviewSrs, 1)
  }

  /** The user's challenge progress after a grade, counted as `DailyAfterGrading` counts goals. */
  function UserAfterGrading(user: User, learned: bool): User {
    UserAfterGoal(if learned then UserAfterGoal(user, LearnNew, 1) else user, ReviewSrs, 1)
  }

  /** A grade adds one `review_srs` unit, and one `learn_new` unit exactly when a new word was
      learned, each capped at its target; the date, the streak and all other goals are kept. */
  lemma {:induction false} GradingBumpsGoals(dp: DailyProgress, learned: bool)
    ensures var r := DailyAfterGrading(Some(dp), learned);
      && r.Some? && r.value.date == dp.date && r.value.streak == dp.streak
      && |r.value.goals| == |dp.goals|
      && forall i :: 0 <= i < |dp.goals| ==>
        var g, h := dp.goals[i], r.value.goals[i];
        && h.id == g.id && h.goalType == g.goalType && h.target == g.target
        && (g.goalType == ReviewSrs ==> h.current == Min(g.target, g.current + 1))
        && (g.goalType == LearnNew ==> h.current == if learned then Min(g.target, g.current + 1) else g.current)
        && (g.goalType != ReviewSrs && g.goalType != LearnNew ==> h == g)
  {
    var d1 := if learned then BumpDaily(Some(dp), LearnNew, 1) else Some(dp);
    assert d1.Some? && d1.value.date == dp.date && d1.value.streak == dp.streak;
    var goals1 := d1.value.goals;
    var r := BumpGoals(goals1, ReviewSrs, 1);
    assert DailyAfterGrading(Some(dp), learned) == Some(d1.value.(goals := r));
    forall i | 0 <= i < |dp.goals|
      ensures var g, h := dp.goals[i], r[i];
        && h.id == g.id && h.goalType == g.goalType && h.target == g.target
        && (g.goalType == ReviewSrs ==> h.current == Min(g.target, g.current + 1))
        && (g.goalType == LearnNew ==> h.current == if learned then Min(g.target, g.current + 1) else g.current)
        && (g.goalType != ReviewSrs && g.goalType != LearnNew ==> h == g)
    {
      assert goals1[i].goalType == dp.goals[i].goalType;
    }
  }

  /** The daily progress the shell actually ends with after a grade: each of the two goal updates
      builds its goals from the same daily progress, captured when the handler was created, and
      the `review_srs` write is the last one. */
  function DailyAfterGradingAsWritten(dp: Option<DailyProgress>, learned: bool): (r: Option<DailyProgress>)
    ensures r == BumpDaily(dp, ReviewSrs, 1)
  {
    var writes := (if learned then [BumpDaily(dp, LearnNew, 1)] else []) + [BumpDaily(dp, ReviewSrs, 1)];
    writes[|writes| - 1]
  }

  /** As written, a first success on a new word leaves an unfinished `learn_new` goal where it was,
      while the intended update raises it by one. */
  lemma StaleClosureLosesLearnNew(dp: DailyProgress, i: int)
    requires 0 <= i < |dp.goals| && dp.goals[i].goalType == LearnNew
    requires dp.goals[i].current < dp.goals[i].target
    ensures DailyAfterGradingAsWritten(Some(dp), true).value.goals[i] == dp.goals[i]
    ensures DailyAfterGrading(Some(dp), true).value.goals[i].current == dp.goals[i].current + 1
  {
    GradingBumpsGoals(dp, true);
  }

  /** The state the application shell keeps for the signed-in learner. */
  class AppState {
    var currentUser: Option<User>
    var studyProgress: StudyProgress
    var dailyProgress: Option<DailyProgress>

    constructor ()
      ensures currentUser == None && studyProgress == map[] && dailyProgress == None
    {
      currentUser := None;
      studyProgress := map[];
      dailyProgress := None;
    }

    /** `handleLoginSuccess`: adopt the user, their stored progress, and today's daily progress. */
    method LoginSuccess(user: User, today: int)
      modifies this
      ensures currentUser == Some(user)
      ensures studyProgress == (if user.studyProgress.Some? then user.studyProgress.value else map[])
      ensures dailyProgress == Some(InitializeDailyProgress(user.dailyProgress, today))
    {
      currentUser := Some(user);
      studyProgress := if user.studyProgress.Some? then user.studyProgress.value else map[];
      dailyProgress := Some(InitializeDailyProgress(user.dailyProgress, today));
    }

    /** `handleLogout`. */
    method Logout()
      modifies this
      ensures currentUser == None && studyProgress == map[] && dailyProgress == None
    {
      currentUser := None;
      studyProgress := map[];
      dailyProgress := None;
    }

    /** `handleGoalUpdate` (without the nested update of the challenge goal): bump the day's goals of
        type `t`, then walk the challenges and record progress on those of type `t`. */
    method GoalUpdate(t: GoalType, amount: int)
      modifies this
      ensures studyProgress == old(studyProgress)
      ensures old(currentUser).None? ==> currentUser == old(currentUser) && dailyProgress == old(dailyProgress)
      ensures old(currentUser).Some? ==>
        && dailyProgress == BumpDaily(old(dailyProgress), t, amount)
        && currentUser == Some(UserAfterGoal(old(currentUser).value, t, amount))
    {
      if currentUser.None? {
        return;
      }
      var user := currentUser.value;
      BumpDailyGoals(t, amount);
      var start := if user.challengeProgress.Some? then user.challengeProgress.value else map[];
      var newChallengeProgress, userChanged := RunChallenges(start, CHALLENGES, t, amount);
      if userChanged {
        currentUser := Some(user.(challengeProgress := Some(newChallengeProgress)));
      }
    }

    /** The daily-goal half of `handleGoalUpdate`: every goal of type `t` moves towards its target. */
    method BumpDailyGoals(t: GoalType, amount: int)
      modifies this
      ensures dailyProgress == BumpDaily(old(dailyProgress), t, amount)
      ensures currentUser == old(currentUser) && studyProgress == old(studyProgress)
    {
      if dailyProgress.Some? {
        var dp := dailyProgress.value;
        dailyProgress := Some(dp.(goals := BumpGoals(dp.goals, t, amount)));
      }
    }

    /** `handleUpdateStudyProgress`: replace the graded word's record by its next one, then count
        a learned word (first success on a new word) and a review (every grade). */
    method UpdateStudyProgress(wordEnglish: string, grade: Grade, now: Timestamp)
      modifies this
      ensures old(currentUser).None? ==>
        currentUser == old(currentUser) && studyProgress == old(studyProgress) && dailyProgress == old(dailyProgress)
      ensures old(currentUser).Some? ==>
        var learned := LearnsNewWord(old(studyProgress), wordEnglish, grade);
        && studyProgress == old(studyProgress)[wordEnglish :=
             Srs.CalculateNextReview(RecordOrSeed(old(studyProgress), wordEnglish, now), grade, now)]
        && dailyProgress == DailyAfterGrading(old(dailyProgress), learned)
        && currentUser == Some(UserAfterGrading(old(currentUser).value, learned))
    {
      if currentUser.None? {
        return;
      }
      var currentRecord := RecordOrSeed(studyProgress, wordEnglish, now);
      var isNewWord := wordEnglish !in studyProgress;
      var newRecord := Srs.CalculateNextReview(currentRecord, grade, now);
      studyProgress := studyProgress[wordEnglish := newRecord];
      if grade != Again && isNewWord {
        GoalUpdate(LearnNew, 1);
      }
      GoalUpdate(ReviewSrs, 1);
    }

    /** `handleResetStudyProgress`: delete the records of the given word keys. */
    method ResetStudyProgress(wordKeys: seq<string>)
      modifies this
      ensures currentUser == old(currentUser) && dailyProgress == old(dailyProgress)
      ensures old(currentUser).None? ==> studyProgress == old(studyProgress)
      ensures old(currentUser).Some? ==> studyProgress == old(studyProgress) - (set k | k in wordKeys)
    {
      if currentUser.None? {
        return;
      }
      var newProgress := studyProgress;
      for i := 0 to |wordKeys|
        invariant newProgress == old(studyProgress) - (set k | k in wordKeys[..i])
      {
        newProgress := newProgress - {wordKeys[i]};
      }
      assert wordKeys[..|wordKeys|] == wordKeys;
      studyProgress := newProgress;
    }
  }

  /** Grading changes the graded word's record and no other. */
  lemma GradingTouchesOneRecord(progress: StudyProgress, wordEnglish: string, grade: Grade, now: Timestamp, other: string)
    requires other != wordEnglish
    ensures var p := progress[wordEnglish := Srs.CalculateNextReview(RecordOrSeed(progress, wordEnglish, now), grade, now)];
      && p.Keys == progress.Keys + {wordEnglish}
      && (other in progress ==> p[other] == progress[other])
  {
  }

  /** After a reset, every word whose key was reset is new again, and the rest keep their records. */
  lemma ResetMakesWordsNew(progress: StudyProgress, wordKeys: seq<string>, allWords: seq<Word>, w: Word)
    requires w in allWords
    ensures var p := progress - (set k | k in wordKeys);
      && (w.english in wordKeys ==> w in Srs.GetNewWords(allWords, p))
      && (w.english !in wordKeys && w.english in progress ==> p[w.english] == progress[w.english])
  {
  }
}
