/**
 * The flashcard study screen: which words form the deck (category, then review or new), the counts
 * shown above it, and the session that walks the deck and removes each card once it is answered.
 */
module FlashcardView {
  import opened Common
  import opened Types
  import opened Seqs
  import opened WordLists
  import Srs
  import App

  /** The category selector's value meaning "every word". */
  const ALL_CATEGORIES: string := "all"

  /** `categories.find(c => c.id === id)`, as the index of the first match. */
  function FindCategoryFrom(categories: seq<Category>, id: string, from: nat): (r: Option<nat>)
    requires from <= |categories|
    ensures r.Some? ==> from <= r.value < |categories| && categories[r.value].id == id
                        && forall j :: from <= j < r.value ==> categories[j].id != id
    ensures r.None? ==> forall j :: from <= j < |categories| ==> categories[j].id != id
    decreases |categories| - from
  {
    if from == |categories| then None
    else if categories[from].id == id then Some(from)
    else FindCategoryFrom(categories, id, from + 1)
  }

  /** `categoryFilteredWords`: every word for "all", else the words of the first category with the
      selected id, or none when no category has it. */
  function CategoryFilteredWords(selectedCategory: string, words: seq<Word>, categories: seq<Category>): (r: seq<Word>)
    ensures selectedCategory == ALL_CATEGORIES ==> r == words
    ensures selectedCategory != ALL_CATEGORIES && (forall j :: 0 <= j < |categories| ==> categories[j].id != selectedCategory)
      ==> r == []
    ensures selectedCategory != ALL_CATEGORIES ==>
      forall i :: (0 <= i < |categories| && categories[i].id == selectedCategory
                   && forall j :: 0 <= j < i ==> categories[j].id != selectedCategory) ==> r == categories[i].words
  {
    if selectedCategory == ALL_CATEGORIES then words
    else
      match FindCategoryFrom(categories, selectedCategory, 0)
      case Some(i) => categories[i].words
      case None => []
  }

  /** The study-mode toggle. */
  datatype StudyFilter = Review | New

  /** `finalFilteredWords`: the deck, before shuffling. */
  function FinalFilteredWords(filter: StudyFilter, categoryWords: seq<Word>, progress: StudyProgress, now: Timestamp): (r: seq<Word>)
    ensures IsSubsequence(r, categoryWords)
    ensures filter.Review? ==> r == Srs.GetWordsToReview(categoryWords, progress, now)
    ensures filter.New? ==> r == Srs.GetNewWords(categoryWords, progress)
    ensures forall w :: w in r <==> w in categoryWords && (if filter.Review? then Srs.IsDue(progress, w, now) else Srs.IsNew(progress, w))
  {
    var session := Srs.GetWordsForSession(categoryWords, progress, now);
    if filter.Review? then session.wordsToReview else session.newWords
  }

  /** The three numbers shown above the deck. */
  datatype StudyCounts = StudyCounts(review: int, newCount: int, total: int)

  /** `studyCounts`: how many words are due, how many are new, and how many are in the category. */
  function ComputeStudyCounts(categoryWords: seq<Word>, progress: StudyProgress, now: Timestamp): (c: StudyCounts)
    ensures c.review == |Srs.GetWordsToReview(categoryWords, progress, now)|
    ensures c.newCount == |Srs.GetNewWords(categoryWords, progress)|
    ensures c.total == |categoryWords|
    ensures 0 <= c.review && 0 <= c.newCount && c.review + c.newCount <= c.total
  {
    var session := Srs.GetWordsForSession(categoryWords, progress, now);
    StudyCounts(|session.wordsToReview|, |session.newWords|, |categoryWords|)
  }

  /** The count shown for a mode is the size of the deck that mode studies. */
  lemma CountsMatchDecks(categoryWords: seq<Word>, progress: StudyProgress, now: Timestamp)
    ensures |FinalFilteredWords(Review, categoryWords, progress, now)| == ComputeStudyCounts(categoryWords, progress, now).review
    ensures |FinalFilteredWords(New, categoryWords, progress, now)| == ComputeStudyCounts(categoryWords, progress, now).newCount
  {
  }

  /** JavaScript's `a / n` truncated toward zero, as `Math.trunc` would give it. */
  function JsQuot(a: int, n: int): int
    requires n > 0
  {
    if a >= 0 then a / n else -((-a) / n)
  }

  /** JavaScript's `a % n` for a positive `n`: the remainder of truncated division, so it has the
      sign of `a`. */
  function JsRem(a: int, n: int): (r: int)
    requires n > 0
    ensures a == JsQuot(a, n) * n + r
    ensures -n < r < n
    ensures a >= 0 ==> r >= 0
    ensures a <= 0 ==> r <= 0
  {
    if a >= 0 then
      assert a == (a / n) * n + a % n;
      a % n
    else
      var q := (-a) / n;
      var m := (-a) % n;
      assert -a == q * n + m;
      assert (-q) * n == -(q * n);
      -m
  }

  /** The remainder of a dividend already below the divisor is the dividend itself. */
  lemma RemBelow(a: int, n: int)
    requires 0 <= a < n
    ensures JsRem(a, n) == a
  {
    assert JsQuot(a, n) == 0;
  }

  /** A dividend between `n` and `2n` loses exactly one `n`. */
  lemma RemWrapsOnce(a: int, n: int)
    requires 0 < n <= a < 2 * n
    ensures JsRem(a, n) == a - n
  {
    assert JsQuot(a, n) == 1;
  }

  /** `goToNext`'s updater. */
  function NextIndex(i: int, n: nat): (r: int)
    ensures n == 0 ==> r == 0
    ensures n > 0 && i >= -1 ==> 0 <= r < n
    ensures n > 0 && -1 <= i < n - 1 ==> r == i + 1
    ensures n > 0 && i == n - 1 ==> r == 0
  {
    if n == 0 then 0
    else
      if -1 <= i < n - 1 then RemBelow(i + 1, n); JsRem(i + 1, n)
      else if i == n - 1 then RemWrapsOnce(i + 1, n); JsRem(i + 1, n)
      else JsRem(i + 1, n)
  }

  /** `goToPrevious`'s updater. */
  function PrevIndex(i: int, n: nat): (r: int)
    ensures n == 0 ==> r == 0
    ensures n > 0 && i >= 1 - n ==> 0 <= r < n
    ensures n > 0 && 1 <= i <= n ==> r == i - 1
    ensures n > 0 && i == 0 ==> r == n - 1
  {
    if n == 0 then 0
    else
      if 1 <= i <= n then RemWrapsOnce(i - 1 + n, n); JsRem(i - 1 + n, n)
      else if i == 0 then RemBelow(i - 1 + n, n); JsRem(i - 1 + n, n)
      else JsRem(i - 1 + n, n)
  }

  /** On a non-empty deck, next and previous undo each other. */
  lemma NextPrevInverse(i: int, n: nat)
    requires 0 <= i < n
    ensures PrevIndex(NextIndex(i, n), n) == i
    ensures NextIndex(PrevIndex(i, n), n) == i
  {
  }

  /** Going forward `n` times on a deck of `n` cards comes back to the same card. */
  function Advance(i: int, n: nat, steps: nat): int {
    if steps == 0 then i else NextIndex(Advance(i, n, steps - 1), n)
  }

  lemma {:induction false} AdvanceWalksInOrder(i: int, n: nat, steps: nat)
    requires 0 <= i < n && steps <= n
    ensures Advance(i, n, steps) == if i + steps < n then i + steps else i + steps - n
    decreases steps
  {
    if steps > 0 {
      AdvanceWalksInOrder(i, n, steps - 1);
    }
  }

  lemma FullCycleReturns(i: int, n: nat)
    requires 0 <= i < n
    ensures Advance(i, n, n) == i
  {
    AdvanceWalksInOrder(i, n, n);
  }

  /** The study session: the (shuffled) deck still to answer and the card shown. */
  class FlashcardSession {
    var currentIndex: int
    var wordSet: seq<Word>

    constructor ()
      ensures currentIndex == 0 && wordSet == []
    {
      currentIndex := 0;
      wordSet := [];
    }

    /** The effect that runs when the deck changes, and `handleShuffle`: show the deck in the order
        `shuffled`, which the random shuffle produced from `deck`, from its first card. */
    method LoadDeck(deck: seq<Word>, shuffled: seq<Word>)
      requires multiset(shuffled) == multiset(deck)
      modifies this
      ensures wordSet == shuffled && currentIndex == 0
      ensures |wordSet| == |deck| && forall w :: w in wordSet <==> w in deck
    {
      wordSet := shuffled;
      currentIndex := 0;
      assert |multiset(shuffled)| == |multiset(deck)|;
      assert forall w :: w in wordSet <==> w in multiset(deck);
    }

    method GoToNext()
      modifies this
      ensures wordSet == old(wordSet)
      ensures currentIndex == NextIndex(old(currentIndex), |wordSet|)
    {
      if |wordSet| == 0 {
        currentIndex := 0;
      } else {
        currentIndex := JsRem(currentIndex + 1, |wordSet|);
      }
    }

    method GoToPrevious()
      modifies this
      ensures wordSet == old(wordSet)
      ensures currentIndex == PrevIndex(old(currentIndex), |wordSet|)
    {
      if |wordSet| == 0 {
        currentIndex := 0;
      } else {
        currentIndex := JsRem(currentIndex - 1 + |wordSet|, |wordSet|);
      }
    }

    /** `handleAnswer`: grade the word in the application state, then drop every card with its
        English key and keep the index unless it now points past the end of the shrunken deck. */
    method HandleAnswer(app: App.AppState, word: Word, grade: Grade, now: Timestamp)
      modifies this, app
      ensures old(app.currentUser).Some? ==>
        app.studyProgress == old(app.studyProgress)[word.english :=
          Srs.CalculateNextReview(App.RecordOrSeed(old(app.studyProgress), word.english, now), grade, now)]
      ensures old(app.currentUser).Some? ==>
        var learned := App.LearnsNewWord(old(app.studyProgress), word.english, grade);
        && app.dailyProgress == App.DailyAfterGrading(old(app.dailyProgress), learned)
        && app.currentUser == Some(App.UserAfterGrading(old(app.currentUser).value, learned))
      ensures old(app.currentUser).None? ==>
        && app.studyProgress == old(app.studyProgress)
        && app.dailyProgress == old(app.dailyProgress)
        && app.currentUser == old(app.currentUser)
      ensures wordSet == RemoveWord(old(wordSet), word.english)
      ensures currentIndex == Min(old(currentIndex), |old(wordSet)| - 2)
    {
      app.UpdateStudyProgress(word.english, grade, now);
      var oldLength := |wordSet|;
      wordSet := RemoveWord(wordSet, word.english);
      currentIndex := Min(currentIndex, oldLength - 2);
    }
  }

  /** When every card has its own English key, removing the key of card `i` removes just that card. */
  lemma RemoveDistinctKey(ws: seq<Word>, i: int)
    requires DistinctKeys(ws) && 0 <= i < |ws|
    ensures RemoveWord(ws, ws[i].english) == ws[..i] + ws[i + 1..]
  {
    var p := KeyIsNot(ws[i].english);
    var pre, post := ws[..i], ws[i + 1..];
    assert ws == pre + [ws[i]] + post;
    assert forall j :: 0 <= j < |pre| ==> pre[j] == ws[j];
    assert forall j :: 0 <= j < |post| ==> post[j] == ws[i + 1 + j];
    FilterKeepsAll(pre, p);
    FilterKeepsAll(post, p);
    assert Filter([ws[i]], p) == [];
    FilterAppend(pre, [ws[i]], p);
    FilterAppend(pre + [ws[i]], post, p);
    calc {
      RemoveWord(ws, ws[i].english);
      Filter(pre + [ws[i]] + post, p);
      Filter(pre + [ws[i]], p) + Filter(post, p);
      Filter(pre, p) + Filter([ws[i]], p) + Filter(post, p);
      pre + [] + post;
      { assert pre + [] == pre; }
      pre + post;
    }
  }

  /** When every card has its own English key, answering the card shown removes just that card: the
      deck loses one card, the card after it (or, after the last card, the one before it) is shown,
      and the index is -1 exactly when the deck has run out. */
  lemma AnswerShowsNeighbour(ws: seq<Word>, i: int)
    requires DistinctKeys(ws) && 0 <= i < |ws|
    ensures var r := RemoveWord(ws, ws[i].english);
      var k := Min(i, |ws| - 2);
      && |r| == |ws| - 1
      && (r == [] <==> k == -1)
      && (r != [] ==> 0 <= k < |r|)
      && (i < |ws| - 1 ==> r[k] == ws[i + 1])
      && (0 < i == |ws| - 1 ==> r[k] == ws[i - 1])
  {
    RemoveDistinctKey(ws, i);
  }

  /** Without distinct keys the adjusted index can point past the end: answering the middle card of
      a deck holding the same word twice and one other leaves one card and index 1. */
  lemma DuplicateKeysLeaveIndexPastEnd(w: Word, x: Word)
    requires w.english != x.english
    ensures var ws := [w, w, x];
      var r := RemoveWord(ws, w.english);
      r == [x] && Min(1, |ws| - 2) == 1 && Min(1, |ws| - 2) >= |r|
  {
    var ws := [w, w, x];
    var p := KeyIsNot(w.english);
    assert ws == [w] + [w, x] && [w, x] == [w] + [x];
    FilterAppend([w], [w, x], p);
    FilterAppend([w], [x], p);
    assert Filter([w], p) == [];
    assert Filter([x], p) == [x];
  }

  /** `handleReset`'s keys: the English key of every word in the selected category. */
  function ResetKeys(categoryWords: seq<Word>): (keys: seq<string>)
    ensures |keys| == |categoryWords|
    ensures (set k | k in keys) == (set w | w in categoryWords :: w.english)
  {
    var keys := seq(|categoryWords|, i requires 0 <= i < |categoryWords| => categoryWords[i].english);
    KeySet(categoryWords, keys);
    keys
  }

  /** A list holding each word's key at the word's position holds exactly the words' keys. */
  lemma KeySet(ws: seq<Word>, keys: seq<string>)
    requires |keys| == |ws| && forall i :: 0 <= i < |ws| ==> keys[i] == ws[i].english
    ensures (set k | k in keys) == (set w | w in ws :: w.english)
  {
    forall k | k in keys
      ensures k in (set w | w in ws :: w.english)
    {
      var i :| 0 <= i < |keys| && keys[i] == k;
      assert ws[i] in ws;
    }
    forall k | k in (set w | w in ws :: w.english)
      ensures k in keys
    {
      var w :| w in ws && w.english == k;
      var i :| 0 <= i < |ws| && ws[i] == w;
      assert keys[i] == k;
    }
  }

  /** After resetting a category, its whole word list is new and none of it is due. */
  lemma ResetCategoryMakesAllNew(categoryWords: seq<Word>, progress: StudyProgress, now: Timestamp)
    ensures var p := progress - (set k | k in ResetKeys(categoryWords));
      && Srs.GetNewWords(categoryWords, p) == categoryWords
      && Srs.GetWordsToReview(categoryWords, p, now) == []
  {
    var keys := ResetKeys(categoryWords);
    var p := progress - (set k | k in keys);
    forall i | 0 <= i < |categoryWords|
      ensures categoryWords[i].english !in p
    {
      assert categoryWords[i] in categoryWords;
    }
    FilterKeepsAll(categoryWords, w => Srs.IsNew(p, w));
    FilterDropsAll(categoryWords, w => Srs.IsDue(p, w, now));
  }
}
