/**
 * The story screen: the learner picks three to five words, a story is requested that uses them,
 * and the reply is split into its English text and its Vietnamese translation at a fixed separator.
 */
module AIStory {
  import opened Common
  import opened Types
  import opened Strings
  import opened Seqs
  import opened WordLists
  import Srs

  /** A story needs at least this many words. */
  const MIN_WORDS: int := 3

  /** At most this many words can be selected. */
  const MAX_WORDS: int := 5

  /** The line the reply is asked to put between the story and its translation. */
  const SEPARATOR: string := "---VIETNAMESE_TRANSLATION---"

  /** Shown as the translation when the reply has no separator. */
  const NO_TRANSLATION: string := "AI không cung cấp bản dịch."

  /** The word-list filter of the screen. */
  datatype WordFilter = AllWords | ReviewOnly

  /** `filteredWords`: every word, or only those due for review. */
  function StoryWordList(filter: WordFilter, words: seq<Word>, progress: StudyProgress, now: Timestamp): (r: seq<Word>)
    ensures IsSubsequence(r, words)
    ensures filter.AllWords? ==> r == words
    ensures filter.ReviewOnly? ==> forall w :: w in r <==> w in words && Srs.IsDue(progress, w, now)
    ensures filter.ReviewOnly? ==>
      forall w :: multiset(r)[w] == if Srs.IsDue(progress, w, now) then multiset(words)[w] else 0
  {
    if filter.ReviewOnly? then Srs.GetWordsToReview(words, progress, now)
    else
      SubsequenceOfItself(words);
      words
  }

  /** `handleWordToggle`'s updater: a selected word is removed (every entry with its key); an
      unselected one is appended while there is room, and ignored otherwise. */
  function Toggle(prev: seq<Word>, word: Word): (r: seq<Word>)
    ensures HasKey(r, word.english) <==> !HasKey(prev, word.english) && |prev| < MAX_WORDS
    ensures forall w: Word :: w.english != word.english ==> multiset(r)[w] == multiset(prev)[w]
    ensures |r| <= |prev| || (|r| == |prev| + 1 && |r| <= MAX_WORDS)
    ensures !HasKey(prev, word.english) && |prev| < MAX_WORDS ==>
      |r| == |prev| + 1 && r[..|prev|] == prev && r[|prev|] == word
    ensures !HasKey(prev, word.english) && |prev| >= MAX_WORDS ==> r == prev
    ensures HasKey(prev, word.english) ==> IsSubsequence(r, prev)
  {
    if HasKey(prev, word.english) then RemoveWord(prev, word.english)
    else if |prev| < MAX_WORDS then
      assert (prev + [word])[|prev|] == word;
      prev + [word]
    else prev
  }

  /** The selection stays within `MAX_WORDS` and free of repeated keys. */
  predicate ValidSelection(ws: seq<Word>) {
    |ws| <= MAX_WORDS && DistinctKeys(ws)
  }

  lemma ToggleKeepsSelectionValid(prev: seq<Word>, word: Word)
    requires ValidSelection(prev)
    ensures ValidSelection(Toggle(prev, word))
  {
    if HasKey(prev, word.english) {
      RemoveKeepsDistinct(prev, word.english);
    }
  }

  /** Selecting an unselected word and then selecting it again gives back the original selection. */
  lemma ToggleTwiceRestores(prev: seq<Word>, word: Word)
    requires !HasKey(prev, word.english) && |prev| < MAX_WORDS
    ensures Toggle(Toggle(prev, word), word) == prev
  {
    var p := KeyIsNot(word.english);
    assert Toggle(prev, word) == prev + [word];
    assert HasKey(prev + [word], word.english) by {
      assert (prev + [word])[|prev|] == word;
    }
    FilterAppend(prev, [word], p);
    RemoveAbsentKey(prev, word.english);
    assert Filter([word], p) == [];
  }

  /** The picker's state. */
  class StorySelection {
    var selectedWords: seq<Word>

    constructor ()
      ensures selectedWords == []
    {
      selectedWords := [];
    }

    method ToggleWord(word: Word)
      modifies this
      ensures selectedWords == Toggle(old(selectedWords), word)
      ensures ValidSelection(old(selectedWords)) ==> ValidSelection(selectedWords)
    {
      var prev := selectedWords;
      if ValidSelection(prev) {
        ToggleKeepsSelectionValid(prev, word);
      }
      var isSelected := HasKey(prev, word.english);
      if isSelected {
        selectedWords := RemoveWord(prev, word.english);
      } else if |prev| < MAX_WORDS {
        selectedWords := prev + [word];
      }
    }
  }

  /** The reply split into its two halves. */
  datatype StoryText = StoryText(english: string, vietnamese: string)

  /** `split(separator)`: the text before the first separator, and the text from there to the next
      separator or the end; without a separator, the whole reply is the English text. */
  function SplitStory(response: string): (r: StoryText)
    ensures !Contains(response, SEPARATOR) ==> r == StoryText(Trim(response), NO_TRANSLATION)
    ensures Contains(response, SEPARATOR) ==> exists i ::
      && OccursAt(response, SEPARATOR, i)
      && (forall j :: 0 <= j < i ==> !OccursAt(response, SEPARATOR, j))
      && r.english == Trim(response[..i])
      && r.vietnamese == Trim(SecondSegment(response[i + |SEPARATOR|..]))
  {
    SplitFrom(response, IndexOf(response, SEPARATOR))
  }

  /** The split, given where the first separator starts (`None` when there is none). */
  function SplitFrom(response: string, first: Option<nat>): StoryText
    requires first.Some? ==> first.value + |SEPARATOR| <= |response|
  {
    match first
    case Some(i) => StoryText(Trim(response[..i]), Trim(SecondSegment(response[i + |SEPARATOR|..])))
    case None => StoryText(Trim(response), NO_TRANSLATION)
  }

  /** `parts[1]`: the text after the first separator, up to the next separator or the end. */
  function SecondSegment(rest: string): (r: string)
    ensures |r| <= |rest| && r == rest[..|r|]
    ensures !Contains(rest, SEPARATOR) ==> r == rest
    ensures Contains(rest, SEPARATOR) ==> IndexOf(rest, SEPARATOR) == Some(|r|)
    ensures !Contains(r, SEPARATOR)
  {
    match IndexOf(rest, SEPARATOR)
    case Some(j) =>
      PrefixBeforeFirst(rest, SEPARATOR, j);
      rest[..j]
    case None => rest
  }

  /** The first separator in `text + SEPARATOR` is the appended one: no separator occurs in `text`,
      and none starts in `text` and runs on into the appended one. */
  predicate EndsBeforeSeparator(text: string) {
    IndexOf(text + SEPARATOR, SEPARATOR) == Some(|text|)
  }

  /** A text without `-` cannot hold the start of a separator, so it ends before the appended one. */
  lemma NoDashEndsBeforeSeparator(text: string)
    requires '-' !in text
    ensures EndsBeforeSeparator(text)
  {
    var s := text + SEPARATOR;
    var n := |text|;
    assert s[n..n + |SEPARATOR|] == SEPARATOR;
    forall j | 0 <= j < n
      ensures !OccursAt(s, SEPARATOR, j)
    {
      assert s[j] == text[j] != '-' == SEPARATOR[0];
      if OccursAt(s, SEPARATOR, j) {
        OccurrenceStartsWith(s, SEPARATOR, j);
      }
    }
    assert OccursAt(s, SEPARATOR, n);
  }

  /** The separator is found right after a text that ends before it, whatever follows. */
  lemma SeparatorAfterStory(english: string, rest: string)
    requires EndsBeforeSeparator(english)
    ensures IndexOf(english + SEPARATOR + rest, SEPARATOR) == Some(|english|)
  {
    var s := english + SEPARATOR + rest;
    var e := english + SEPARATOR;
    var n := |english|;
    assert s[..|e|] == e;
    forall j | 0 <= j < n
      ensures !OccursAt(s, SEPARATOR, j)
    {
      assert !OccursAt(e, SEPARATOR, j);
      assert s[j..j + |SEPARATOR|] == e[j..j + |SEPARATOR|];
    }
    assert s[n..n + |SEPARATOR|] == e[n..n + |SEPARATOR|];
    assert OccursAt(s, SEPARATOR, n);
  }

  /** A reply written as asked, the story, the separator and the translation, splits back into the
      trimmed story and the trimmed translation, when the story ends before the separator (no
      separator starts inside it) and the translation has no separator. */
  lemma SplitStoryRoundTrip(english: string, vietnamese: string)
    requires EndsBeforeSeparator(english)
    requires !Contains(vietnamese, SEPARATOR)
    ensures SplitStory(english + SEPARATOR + vietnamese) == StoryText(Trim(english), Trim(vietnamese))
  {
    var s := english + SEPARATOR + vietnamese;
    var n := |english|;
    SeparatorAfterStory(english, vietnamese);
    assert SplitStory(s) == SplitFrom(s, Some(n));
    assert s[..n] == english;
    assert s[n + |SEPARATOR|..] == vietnamese;
  }

  /** Only the segment between the first and the second separator becomes the translation; the text
      after a second separator is dropped. */
  lemma SplitStoryDropsThirdSegment(english: string, vietnamese: string, tail: string)
    requires EndsBeforeSeparator(english) && EndsBeforeSeparator(vietnamese)
    ensures SplitStory(english + SEPARATOR + vietnamese + SEPARATOR + tail) == StoryText(Trim(english), Trim(vietnamese))
  {
    var rest := vietnamese + SEPARATOR + tail;
    var s := english + SEPARATOR + rest;
    assert s == english + SEPARATOR + vietnamese + SEPARATOR + tail;
    var n := |english|;
    SeparatorAfterStory(english, rest);
    assert SplitStory(s) == SplitFrom(s, Some(n));
    assert s[..n] == english;
    assert s[n + |SEPARATOR|..] == rest;
    SecondSegmentStops(vietnamese, tail);
  }

  /** The translation segment ends at the next separator, when the translation ends before it. */
  lemma SecondSegmentStops(vietnamese: string, tail: string)
    requires EndsBeforeSeparator(vietnamese)
    ensures SecondSegment(vietnamese + SEPARATOR + tail) == vietnamese
  {
    var rest := vietnamese + SEPARATOR + tail;
    SeparatorAfterStory(vietnamese, tail);
    assert rest[..|vietnamese|] == vietnamese;
  }

  /** Hyphenated stories split as well: "well-known" followed by the separator. */
  lemma HyphenatedStorySplits(vietnamese: string)
    requires !Contains(vietnamese, SEPARATOR)
    ensures SplitStory("well-known" + SEPARATOR + vietnamese) == StoryText(Trim("well-known"), Trim(vietnamese))
  {
    WellKnownEndsBeforeSeparator();
    SplitStoryRoundTrip("well-known", vietnamese);
  }

  lemma WellKnownEndsBeforeSeparator()
    ensures EndsBeforeSeparator("well-known")
  {
    var e := "well-known";
    var s := e + SEPARATOR;
    forall j | 0 <= j < |e|
      ensures !OccursAt(s, SEPARATOR, j)
    {
      var k := if j == 4 then 1 else 0;
      assert s[j..j + |SEPARATOR|][k] == s[j + k] != SEPARATOR[k];
    }
    assert s[|e|..] == SEPARATOR;
    assert OccursAt(s, SEPARATOR, |e|);
  }

  /** How `generateStory` ends. */
  datatype StoryOutcome = TooFewWords | GenerationFailed | Story(text: StoryText)

  /** `generateStory`, with the reply of the story service as a parameter (`None` when the call
      failed): refused below `MIN_WORDS` selected words, otherwise the split reply. */
  function GenerateStory(selectedWords: seq<Word>, response: Option<string>): (o: StoryOutcome)
    ensures o.TooFewWords? <==> |selectedWords| < MIN_WORDS
    ensures o.GenerationFailed? <==> |selectedWords| >= MIN_WORDS && response.None?
    ensures o.Story? ==> response.Some? && o.text == SplitStory(response.value)
  {
    if |selectedWords| < MIN_WORDS then TooFewWords
    else
      match response
      case None => GenerationFailed
      case Some(text) => Story(SplitStory(text))
  }

  /** A valid selection that can start a story holds three, four or five distinct words. */
  lemma StorySelectionSize(selectedWords: seq<Word>, response: Option<string>)
    requires ValidSelection(selectedWords)
    requires !GenerateStory(selectedWords, response).TooFewWords?
    ensures MIN_WORDS <= |selectedWords| <= MAX_WORDS
  {
  }
}
