/**
 * Scoring of the placement test: counting correct answers overall and per CEFR level, the rounded
 * percentage of each level, and the level assigned when the assessment service is unavailable.
 */
module PlacementTest {
  import opened Common
  import opened Types
  import opened Strings

  /** The levels in increasing difficulty. */
  const LEVELS: seq<CefrLevel> := [A1, A2, B1, B2, C1, C2]

  /** A level counts as passed at this percentage or above. */
  const PASS_MARK: int := 50

  /** Shown as the learner's answer to a question left unanswered. */
  const NO_ANSWER: string := "Chưa trả lời"

  datatype Question = Question(id: string, text: string, options: seq<string>, correctAnswer: string, level: CefrLevel)

  datatype IncorrectQuestionInfo = IncorrectQuestionInfo(
    questionId: string, questionText: string, userAnswer: string, correctAnswer: string, level: CefrLevel)

  /** The running counters of one level. */
  datatype Tally = Tally(correct: int, total: int)

  datatype LevelPerformance = LevelPerformance(correct: int, total: int, percentage: int)

  datatype TestAnalysis = TestAnalysis(
    score: int, totalQuestions: int, incorrectQuestions: seq<IncorrectQuestionInfo>,
    performanceByLevel: map<CefrLevel, LevelPerformance>)

  datatype PlacementTestResult = PlacementTestResult(level: CefrLevel, analysis: TestAnalysis)

  /** The learner's answers, by question id. */
  type Answers = map<string, string>

  predicate IsCorrect(q: Question, answers: Answers) {
    q.id in answers && answers[q.id] == q.correctAnswer
  }

  function Last<T>(s: seq<T>): T
    requires s != []
  {
    s[|s| - 1]
  }

  function Init<T>(s: seq<T>): seq<T>
    requires s != []
  {
    s[..|s| - 1]
  }

  /** Number of correctly answered questions. */
  function CountCorrect(qs: seq<Question>, answers: Answers): nat
    decreases |qs|
  {
    if qs == [] then 0 else CountCorrect(Init(qs), answers) + (if IsCorrect(Last(qs), answers) then 1 else 0)
  }

  /** Number of questions at level `l`. */
  function CountAtLevel(qs: seq<Question>, l: CefrLevel): nat
    decreases |qs|
  {
    if qs == [] then 0 else CountAtLevel(Init(qs), l) + (if Last(qs).level == l then 1 else 0)
  }

  /** Number of correctly answered questions at level `l`. */
  function CountCorrectAtLevel(qs: seq<Question>, answers: Answers, l: CefrLevel): nat
    decreases |qs|
  {
    if qs == [] then 0
    else CountCorrectAtLevel(Init(qs), answers, l) + (if Last(qs).level == l && IsCorrect(Last(qs), answers) then 1 else 0)
  }

  /** What the analysis records about a question answered wrongly or not at all. */
  function IncorrectInfo(q: Question, answers: Answers): IncorrectQuestionInfo {
    IncorrectQuestionInfo(q.id, q.text, if q.id in answers then answers[q.id] else NO_ANSWER, q.correctAnswer, q.level)
  }

  /** The incorrectly answered questions, in test order. */
  function IncorrectInfos(qs: seq<Question>, answers: Answers): seq<IncorrectQuestionInfo>
    decreases |qs|
  {
    if qs == [] then []
    else IncorrectInfos(Init(qs), answers) + (if IsCorrect(Last(qs), answers) then [] else [IncorrectInfo(Last(qs), answers)])
  }

  /** The scoring loop of `handleSubmit`: the score, the incorrect questions and each level's counters. */
  method ScoreAnswers(questions: seq<Question>, answers: Answers)
    returns (score: int, incorrectQuestions: seq<IncorrectQuestionInfo>, performanceByLevel: map<CefrLevel, Tally>)
    ensures score == CountCorrect(questions, answers)
    ensures incorrectQuestions == IncorrectInfos(questions, answers)
    ensures forall l :: l in performanceByLevel <==> CountAtLevel(questions, l) > 0
    ensures forall l :: l in performanceByLevel ==>
      performanceByLevel[l] == Tally(CountCorrectAtLevel(questions, answers, l), CountAtLevel(questions, l))
  {
    score := 0;
    incorrectQuestions := [];
    performanceByLevel := map[];
    for i := 0 to |questions|
      invariant score == CountCorrect(questions[..i], answers)
      invariant incorrectQuestions == IncorrectInfos(questions[..i], answers)
      invariant TalliesMatch(performanceByLevel, questions[..i], answers)
    {
      var q := questions[i];
      ScoreStep(questions, answers, i);
      TallyStep(performanceByLevel, questions, answers, i);
      var level := q.level;
      if level !in performanceByLevel {
        performanceByLevel := performanceByLevel[level := Tally(0, 0)];
      }
      var data := performanceByLevel[level];
      if q.id in answers && answers[q.id] == q.correctAnswer {
        score := score + 1;
        performanceByLevel := performanceByLevel[level := Tally(data.correct + 1, data.total + 1)];
      } else {
        performanceByLevel := performanceByLevel[level := Tally(data.correct, data.total + 1)];
        incorrectQuestions := incorrectQuestions + [IncorrectInfo(q, answers)];
      }
    }
    assert questions[..|questions|] == questions;
  }

  /** The level counters agree with the questions `qs` seen so far. */
  predicate TalliesMatch(m: map<CefrLevel, Tally>, qs: seq<Question>, answers: Answers) {
    && (forall l :: l in m <==> CountAtLevel(qs, l) > 0)
    && (forall l :: l in m ==> m[l] == Tally(CountCorrectAtLevel(qs, answers, l), CountAtLevel(qs, l)))
  }

  /** One pass of the scoring loop keeps the level counters in agreement with the questions seen. */
  lemma TallyStep(m: map<CefrLevel, Tally>, questions: seq<Question>, answers: Answers, i: int)
    requires 0 <= i < |questions| && TalliesMatch(m, questions[..i], answers)
    ensures var q := questions[i];
      var data := if q.level in m then m[q.level] else Tally(0, 0);
      TalliesMatch(m[q.level := Tally(data.correct + (if IsCorrect(q, answers) then 1 else 0), data.total + 1)],
                   questions[..i + 1], answers)
  {
    ScoreStep(questions, answers, i);
    CorrectWithinTotal(questions[..i], answers, questions[i].level);
  }

  /** How every count grows when the prefix of the test is extended by question `i`. */
  lemma ScoreStep(questions: seq<Question>, answers: Answers, i: int)
    requires 0 <= i < |questions|
    ensures var q := questions[i];
      && CountCorrect(questions[..i + 1], answers) == CountCorrect(questions[..i], answers) + (if IsCorrect(q, answers) then 1 else 0)
      && IncorrectInfos(questions[..i + 1], answers)
         == IncorrectInfos(questions[..i], answers) + (if IsCorrect(q, answers) then [] else [IncorrectInfo(q, answers)])
    ensures forall l :: CountAtLevel(questions[..i + 1], l) == CountAtLevel(questions[..i], l) + (if l == questions[i].level then 1 else 0)
    ensures forall l ::
      (CountCorrectAtLevel(questions[..i + 1], answers, l)
       == CountCorrectAtLevel(questions[..i], answers, l) + (if l == questions[i].level && IsCorrect(questions[i], answers) then 1 else 0))
  {
    assert Init(questions[..i + 1]) == questions[..i] && Last(questions[..i + 1]) == questions[i];
  }

  /** `Math.round(correct / total * 100)` for a positive total, else 0: the nearest whole percentage,
      halves rounded up. */
  function Percentage(correct: int, total: int): (p: int)
    ensures total <= 0 ==> p == 0
    ensures total > 0 ==> 2 * total * p - total <= 200 * correct < 2 * total * p + total
    ensures total > 0 && 0 <= correct <= total ==> 0 <= p <= 100
  {
    if total > 0 then
      var p := (200 * correct + total) / (2 * total);
      PercentageRounds(correct, total, p);
      p
    else 0
  }

  lemma PercentageRounds(correct: int, total: int, p: int)
    requires total > 0 && p == (200 * correct + total) / (2 * total)
    ensures 2 * total * p - total <= 200 * correct < 2 * total * p + total
    ensures 0 <= correct <= total ==> 0 <= p <= 100
  {
    var d := 2 * total;
    var n := 200 * correct + total;
    var dp := d * p;
    assert n == dp + n % d && 0 <= n % d < d;
    assert 2 * total * p == dp;
    if 0 <= correct <= total {
      if p > 100 {
        ScaleMonotone(d, 101, p);
      }
      if p < 0 {
        ScaleMonotone(d, p, -1);
      }
    }
  }

  lemma ScaleMonotone(d: int, a: int, b: int)
    requires d > 0 && a <= b
    ensures d * a <= d * b
  {
    assert d * b - d * a == d * (b - a);
  }

  /** A level's counters completed with its percentage. */
  function WithPercentage(t: Tally): LevelPerformance {
    LevelPerformance(t.correct, t.total, Percentage(t.correct, t.total))
  }

  /** The `for...in` loop of `handleSubmit`: every level's counters with the percentage added. */
  method ComputePerformance(performanceByLevel: map<CefrLevel, Tally>) returns (finalPerformance: map<CefrLevel, LevelPerformance>)
    ensures finalPerformance.Keys == performanceByLevel.Keys
    ensures forall l :: l in finalPerformance ==> finalPerformance[l] == WithPercentage(performanceByLevel[l])
  {
    finalPerformance := map[];
    var keys := performanceByLevel.Keys;
    while keys != {}
      invariant keys <= performanceByLevel.Keys
      invariant finalPerformance.Keys == performanceByLevel.Keys - keys
      invariant forall l :: l in finalPerformance ==> finalPerformance[l] == WithPercentage(performanceByLevel[l])
      decreases keys
    {
      var level :| level in keys;
      var data := performanceByLevel[level];
      finalPerformance := finalPerformance[level := LevelPerformance(data.correct, data.total,
        if data.total > 0 then Percentage(data.correct, data.total) else 0)];
      keys := keys - {level};
    }
  }

  /** The per-level performance of a finished test, as a specification. */
  function Performance(qs: seq<Question>, answers: Answers): map<CefrLevel, LevelPerformance> {
    map l | l in LEVELS && CountAtLevel(qs, l) > 0 ::
      WithPercentage(Tally(CountCorrectAtLevel(qs, answers, l), CountAtLevel(qs, l)))
  }

  lemma EveryLevelListed(l: CefrLevel)
    ensures l in LEVELS
  {
    match l
    case A1 => assert LEVELS[0] == l;
    case A2 => assert LEVELS[1] == l;
    case B1 => assert LEVELS[2] == l;
    case B2 => assert LEVELS[3] == l;
    case C1 => assert LEVELS[4] == l;
    case C2 => assert LEVELS[5] == l;
  }

  /** Every question is either counted in the score or listed as incorrect. */
  lemma {:induction false} ScoreAndIncorrectCoverTest(qs: seq<Question>, answers: Answers)
    ensures CountCorrect(qs, answers) + |IncorrectInfos(qs, answers)| == |qs|
    decreases |qs|
  {
    if qs != [] {
      ScoreAndIncorrectCoverTest(Init(qs), answers);
    }
  }

  /** A level's correct answers never exceed its questions. */
  lemma {:induction false} CorrectWithinTotal(qs: seq<Question>, answers: Answers, l: CefrLevel)
    ensures CountCorrectAtLevel(qs, answers, l) <= CountAtLevel(qs, l)
    decreases |qs|
  {
    if qs != [] {
      CorrectWithinTotal(Init(qs), answers, l);
    }
  }

  /** The levels' correct counts add up to the score, and their question counts to the test length. */
  lemma {:induction false} LevelsAddUp(qs: seq<Question>, answers: Answers)
    ensures CountCorrectAtLevel(qs, answers, A1) + CountCorrectAtLevel(qs, answers, A2)
          + CountCorrectAtLevel(qs, answers, B1) + CountCorrectAtLevel(qs, answers, B2)
          + CountCorrectAtLevel(qs, answers, C1) + CountCorrectAtLevel(qs, answers, C2)
         == CountCorrect(qs, answers)
    ensures CountAtLevel(qs, A1) + CountAtLevel(qs, A2) + CountAtLevel(qs, B1)
          + CountAtLevel(qs, B2) + CountAtLevel(qs, C1) + CountAtLevel(qs, C2)
         == |qs|
    decreases |qs|
  {
    if qs != [] {
      LevelsAddUp(Init(qs), answers);
    }
  }

  /** Every level in the analysis has questions, and its percentage lies between 0 and 100. */
  lemma PercentagesInRange(qs: seq<Question>, answers: Answers, l: CefrLevel)
    requires l in Performance(qs, answers)
    ensures var p := Performance(qs, answers)[l];
      p.total > 0 && 0 <= p.correct <= p.total && 0 <= p.percentage <= 100
  {
    CorrectWithinTotal(qs, answers, l);
  }

  predicate Passes(perf: map<CefrLevel, LevelPerformance>, l: CefrLevel) {
    l in perf && perf[l].percentage >= PASS_MARK
  }

  /** The number of consecutive levels, from `LEVELS[i]` on, that were passed. */
  function PassedRunFrom(perf: map<CefrLevel, LevelPerformance>, i: nat): (k: nat)
    requires i <= |LEVELS|
    ensures i <= k <= |LEVELS|
    ensures forall j :: i <= j < k ==> Passes(perf, LEVELS[j])
    ensures k < |LEVELS| ==> !Passes(perf, LEVELS[k])
    decreases |LEVELS| - i
  {
    if i < |LEVELS| && Passes(perf, LEVELS[i]) then PassedRunFrom(perf, i + 1) else i
  }

  /** The fallback level: the last of the passed run A1, A2, ... or A1 if A1 itself was not passed. */
  function FallbackLevel(perf: map<CefrLevel, LevelPerformance>): CefrLevel {
    var k := PassedRunFrom(perf, 0);
    if k == 0 then A1 else LEVELS[k - 1]
  }

  /** The fallback loop of `handleSubmit`: walk the levels upward and stop at the first one not passed. */
  method DetermineFallbackLevel(finalPerformance: map<CefrLevel, LevelPerformance>) returns (determinedLevel: CefrLevel)
    ensures determinedLevel == FallbackLevel(finalPerformance)
  {
    determinedLevel := A1;
    var i := 0;
    while i < |LEVELS|
      invariant 0 <= i <= |LEVELS|
      invariant forall j :: 0 <= j < i ==> Passes(finalPerformance, LEVELS[j])
      invariant determinedLevel == if i == 0 then A1 else LEVELS[i - 1]
    {
      var lvl := LEVELS[i];
      if lvl in finalPerformance && finalPerformance[lvl].percentage >= PASS_MARK {
        determinedLevel := lvl;
      } else {
        break;
      }
      i := i + 1;
    }
    assert PassedRunFrom(finalPerformance, 0) == i;
  }

  function LevelIndex(l: CefrLevel): (i: nat)
    ensures i < |LEVELS| && LEVELS[i] == l
  {
    match l
    case A1 => 0
    case A2 => 1
    case B1 => 2
    case B2 => 3
    case C1 => 4
    case C2 => 5
  }

  /** The fallback level is the highest level L such that A1..L were all passed (A1 by default):
      every level up to it was passed, unless it is the default, and any fully passed run ends there or below. */
  lemma FallbackIsHighestPassedRun(perf: map<CefrLevel, LevelPerformance>, m: nat)
    ensures FallbackLevel(perf) == A1 || forall j :: 0 <= j <= LevelIndex(FallbackLevel(perf)) ==> Passes(perf, LEVELS[j])
    ensures m < |LEVELS| && (forall j :: 0 <= j <= m ==> Passes(perf, LEVELS[j])) ==> m <= LevelIndex(FallbackLevel(perf))
  {
    var k := PassedRunFrom(perf, 0);
    if k > 0 {
      assert LevelIndex(LEVELS[k - 1]) == k - 1;
    }
  }

  function LevelName(l: CefrLevel): string {
    match l
    case A1 => "A1"
    case A2 => "A2"
    case B1 => "B1"
    case B2 => "B2"
    case C1 => "C1"
    case C2 => "C2"
  }

  function ParseLevel(s: string): (r: Option<CefrLevel>)
    ensures r.Some? ==> LevelName(r.value) == s
    ensures r.None? ==> forall l :: LevelName(l) != s
  {
    if s == "A1" then Some(A1)
    else if s == "A2" then Some(A2)
    else if s == "B1" then Some(B1)
    else if s == "B2" then Some(B2)
    else if s == "C1" then Some(C1)
    else if s == "C2" then Some(C2)
    else None
  }

  /** The level the assessment service answered, trimmed and upper-cased, if it names a level;
      A2 otherwise. */
  function AcceptAiLevel(response: string): (l: CefrLevel)
    ensures (exists l' :: LevelName(l') == ToUpper(Trim(response))) ==> LevelName(l) == ToUpper(Trim(response))
    ensures (forall l' :: LevelName(l') != ToUpper(Trim(response))) ==> l == A2
  {
    match ParseLevel(ToUpper(Trim(response)))
    case Some(level) => level
    case None => A2
  }

  /** A response that is exactly a level's name is accepted as that level. */
  lemma AcceptAiLevelRoundTrip(l: CefrLevel)
    ensures AcceptAiLevel(LevelName(l)) == l
  {
    var s := LevelName(l);
    LevelNameIsCanonical(l);
    assert ParseLevel(s) == Some(l) by {
      match l
      case A1 =>
      case A2 =>
      case B1 =>
      case B2 =>
      case C1 =>
      case C2 =>
    }
  }

  /** A level's name has no surrounding whitespace and no lower-case letter. */
  lemma LevelNameIsCanonical(l: CefrLevel)
    ensures Trim(LevelName(l)) == LevelName(l)
    ensures ToUpper(LevelName(l)) == LevelName(l)
  {
    var s := LevelName(l);
    assert |s| == 2 && 'A' <= s[0] <= 'C' && '1' <= s[1] <= '2';
    TrimmedIsFixed(s);
    assert ToUpper(s) == s;
  }

  /** How `handleSubmit` ends. */
  datatype SubmitOutcome = NotAllAnswered | Submitted(result: PlacementTestResult)

  /** `handleSubmit`: refuse unless every question has an answer, score the test, and take the level
      from the assessment service's response, or from the fallback rule when the call failed (`None`). */
  method HandleSubmit(questions: seq<Question>, answers: Answers, aiResponse: Option<string>) returns (outcome: SubmitOutcome)
    ensures outcome.NotAllAnswered? <==> |answers.Keys| != |questions|
    ensures outcome.Submitted? ==>
      var a := outcome.result.analysis;
      && a.score == CountCorrect(questions, answers)
      && a.totalQuestions == |questions|
      && a.incorrectQuestions == IncorrectInfos(questions, answers)
      && a.performanceByLevel == Performance(questions, answers)
      && outcome.result.level == (if aiResponse.Some? then AcceptAiLevel(aiResponse.value)
                                  else FallbackLevel(Performance(questions, answers)))
  {
    if |answers.Keys| != |questions| {
      return NotAllAnswered;
    }
    var score, incorrectQuestions, performanceByLevel := ScoreAnswers(questions, answers);
    var finalPerformance := ComputePerformance(performanceByLevel);
    forall l ensures l in finalPerformance <==> l in Performance(questions, answers) {
      EveryLevelListed(l);
    }
    assert finalPerformance == Performance(questions, answers);
    var analysis := TestAnalysis(score, |questions|, incorrectQuestions, finalPerformance);
    var level;
    if aiResponse.Some? {
      level := AcceptAiLevel(aiResponse.value);
    } else {
      level := DetermineFallbackLevel(finalPerformance);
    }
    outcome := Submitted(PlacementTestResult(level, analysis));
  }

  predicate DistinctQuestionIds(qs: seq<Question>) {
    forall i, j :: 0 <= i < j < |qs| ==> qs[i].id != qs[j].id
  }

  function QuestionIds(qs: seq<Question>): set<string> {
    set i | 0 <= i < |qs| :: qs[i].id
  }

  lemma {:induction false} DistinctIdsCount(qs: seq<Question>)
    requires DistinctQuestionIds(qs)
    ensures |QuestionIds(qs)| == |qs|
    decreases |qs|
  {
    if qs != [] {
      DistinctIdsCount(Init(qs));
      assert QuestionIds(qs) == QuestionIds(Init(qs)) + {Last(qs).id};
      assert Last(qs).id !in QuestionIds(Init(qs));
    }
  }

  /** Answers are recorded only under question ids, so counting them decides exactly whether every
      question has been answered. */
  lemma AllAnsweredIffCountMatches(qs: seq<Question>, answers: Answers)
    requires DistinctQuestionIds(qs)
    requires answers.Keys <= QuestionIds(qs)
    ensures |answers.Keys| == |qs| <==> forall i :: 0 <= i < |qs| ==> qs[i].id in answers
  {
    DistinctIdsCount(qs);
    if forall i :: 0 <= i < |qs| ==> qs[i].id in answers {
      AnsweredKeysAreIds(qs, answers);
    } else {
      var i :| 0 <= i < |qs| && qs[i].id !in answers;
      MissingAnswerShrinksKeys(qs, answers, i);
    }
  }

  /** With every question answered, and answers only under question ids, the keys are the ids. */
  lemma AnsweredKeysAreIds(qs: seq<Question>, answers: Answers)
    requires answers.Keys <= QuestionIds(qs)
    requires forall i :: 0 <= i < |qs| ==> qs[i].id in answers
    ensures answers.Keys == QuestionIds(qs)
  {
    forall x | x in QuestionIds(qs)
      ensures x in answers.Keys
    {
      var i :| 0 <= i < |qs| && qs[i].id == x;
    }
  }

  /** An unanswered question leaves fewer answer keys than question ids. */
  lemma MissingAnswerShrinksKeys(qs: seq<Question>, answers: Answers, i: int)
    requires answers.Keys <= QuestionIds(qs)
    requires 0 <= i < |qs| && qs[i].id !in answers
    ensures |answers.Keys| < |QuestionIds(qs)|
  {
    var ids := QuestionIds(qs);
    var missing := ids - answers.Keys;
    assert qs[i].id in missing;
    assert ids == answers.Keys + missing;
    assert |ids| == |answers.Keys| + |missing|;
  }
}
