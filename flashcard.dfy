/**
 * One flashcard: the colour of its border (the word's stage in the review schedule) and the split
 * of the example sentence "English sentence (Vietnamese sentence)" into its two halves.
 */
module Flashcard {
  import opened Common
  import opened Types
  import opened Strings
  import Srs

  /** The three border styles of a card. */
  datatype CardStatus = NewCard | Learning | Graduated

  /** The level from which a card counts as graduated. */
  const GRADUATED_LEVEL: int := 5

  /** `getCardStatus`: new without a record or at level 0, learning at levels 1 to 4, graduated
      otherwise (which includes a negative level). */
  function GetCardStatus(record: Option<StudyRecord>): (s: CardStatus)
    ensures s == NewCard <==> record.None? || record.value.srsLevel == 0
    ensures s == Learning <==> record.Some? && 0 < record.value.srsLevel < GRADUATED_LEVEL
    ensures s == Graduated <==> record.Some? && (record.value.srsLevel >= GRADUATED_LEVEL || record.value.srsLevel < 0)
  {
    if record.None? || record.value.srsLevel == 0 then NewCard
    else if record.value.srsLevel > 0 && record.value.srsLevel < GRADUATED_LEVEL then Learning
    else Graduated
  }

  function RecordOf(progress: StudyProgress, english: string): Option<StudyRecord> {
    if english in progress then Some(progress[english]) else None
  }

  /** A card shows as new exactly when its word is new or has been sent back to level 0. */
  lemma NewCardIffNewOrReset(progress: StudyProgress, w: Word, now: Timestamp)
    ensures GetCardStatus(RecordOf(progress, w.english)) == NewCard
      <==> Srs.BucketOf(progress, w, now) in {Srs.NewWord, Srs.ResetLimbo}
  {
  }

  /** After "again" a card shows as new; after a first success on a new card it shows as learning;
      and a card answered "good" five times in a row shows as graduated. */
  lemma StatusAfterGrading(r: StudyRecord, now: Timestamp)
    ensures GetCardStatus(Some(Srs.CalculateNextReview(r, Again, now))) == NewCard
    ensures r.srsLevel == 0 ==> GetCardStatus(Some(Srs.CalculateNextReview(r, Good, now))) == Learning
    ensures 0 <= r.srsLevel <= Srs.MAX_LEVEL ==> GetCardStatus(Some(Srs.RepeatGood(r, 5, now))) == Graduated
  {
    if 0 <= r.srsLevel <= Srs.MAX_LEVEL {
      Srs.RepeatedGoodClimbsToTop(r, 5, now);
    }
  }

  /** `example.split('(')[0]`: the text before the first `(`, or all of it. */
  function BeforeFirstParen(s: string): (p: string)
    ensures |p| <= |s| && p == s[..|p|]
    ensures '(' !in p
    ensures |p| < |s| ==> s[|p|] == '('
  {
    match IndexOf(s, "(")
    case Some(k) =>
      assert OccursAt(s, "(", k) && s[k..k + 1] == "(";
      forall j | 0 <= j < k
        ensures s[j] != '('
      {
        assert !OccursAt(s, "(", j);
        assert s[j..j + 1] == [s[j]];
      }
      s[..k]
    case None =>
      forall j | 0 <= j < |s|
        ensures s[j] != '('
      {
        assert !OccursAt(s, "(", j);
        assert s[j..j + 1] == [s[j]];
      }
      s
  }

  /** The English half: the text before the first `(`, trimmed. */
  function EnglishExample(example: string): (r: string)
    ensures '(' !in r
    ensures r != [] ==> !IsWhitespace(r[0]) && !IsWhitespace(r[|r| - 1])
    ensures exists n ::
      && 0 <= n <= |example| && '(' !in example[..n] && (n < |example| ==> example[n] == '(')
      && r == Trim(example[..n])
  {
    var p := BeforeFirstParen(example);
    var r := Trim(p);
    assert r == TrimStart(TrimEnd(p));
    assert p == example[..|p|];
    r
  }

  /** The regular expression `\(([^)]+)\)` tried at index `i`: an opening parenthesis, one or more
      characters other than `)`, and a closing parenthesis; the group is the text between them. */
  function GroupAt(s: string, i: nat): (g: Option<string>)
    requires i < |s|
    ensures g.Some? ==> g.value != [] && ')' !in g.value && OccursAt(s, "(" + g.value + ")", i)
    ensures g.None? ==> forall t: string :: t != [] && ')' !in t ==> !OccursAt(s, "(" + t + ")", i)
  {
    if s[i] != '(' then
      NoOpen(s, i);
      None
    else
      match IndexOfFrom(s, ")", i + 1)
      case Some(k) =>
        CloseIsFirst(s, i, k);
        if k > i + 1 then
          GroupBetween(s, i, k);
          Some(s[i + 1..k])
        else
          None
      case None =>
        NoClose(s, i);
        None
  }

  /** What an occurrence of `(t)` at `i` says about the characters of `s`. */
  lemma OpenAt(s: string, t: string, i: nat)
    requires OccursAt(s, "(" + t + ")", i)
    ensures s[i] == '(' && s[i + |t| + 1] == ')'
    ensures OccursAt(s, ")", i + |t| + 1)
    ensures s[i + 1..i + |t| + 1] == t
    ensures forall j :: i < j <= i + |t| ==> s[j] == t[j - i - 1]
    ensures ')' !in t ==> forall j :: i < j <= i + |t| ==> s[j] != ')'
  {
    var c := i + |t| + 1;
    var m := s[i..c + 1];
    assert m == "(" + t + ")";
    assert m[0] == s[i];
    assert s[c] == m[|t| + 1];
    assert s[c..c + 1] == [m[|t| + 1]];
    forall j | i < j <= i + |t|
      ensures s[j] == t[j - i - 1]
    {
      assert s[j] == m[j - i];
    }
    var inner := s[i + 1..c];
    assert forall j :: 0 <= j < |t| ==> inner[j] == t[j];
  }

  /** The text between a `(` at `i` and a `)` at `k` occurs there in parentheses. */
  lemma GroupBetween(s: string, i: nat, k: nat)
    requires i < k < |s| && s[i] == '(' && OccursAt(s, ")", k)
    ensures OccursAt(s, "(" + s[i + 1..k] + ")", i)
  {
    assert s[k..k + 1] == ")";
    assert s[i..k + 1] == [s[i]] + s[i + 1..k] + s[k..k + 1];
  }

  /** A group can only open at a `(`. */
  lemma NoOpen(s: string, i: nat)
    requires i < |s| && s[i] != '('
    ensures forall t: string :: !OccursAt(s, "(" + t + ")", i)
  {
    forall t: string
      ensures !OccursAt(s, "(" + t + ")", i)
    {
      if OccursAt(s, "(" + t + ")", i) {
        OpenAt(s, t, i);
      }
    }
  }

  /** With the first `)` after `i + 1` at `k`, the text between is free of `)`, and any group
      opening at `i` closes at `k`. */
  lemma CloseIsFirst(s: string, i: nat, k: nat)
    requires i < |s| && s[i] == '('
    requires i + 1 <= k && OccursAt(s, ")", k) && forall j :: i + 1 <= j < k ==> !OccursAt(s, ")", j)
    ensures ')' !in s[i + 1..k]
    ensures forall t: string :: t != [] && ')' !in t && OccursAt(s, "(" + t + ")", i) ==> |t| == k - i - 1
  {
    forall j | i + 1 <= j < k
      ensures s[j] != ')'
    {
      assert !OccursAt(s, ")", j);
      assert s[j..j + 1] == [s[j]];
    }
    assert s[k..k + 1] == [s[k]];
    forall t: string | t != [] && ')' !in t && OccursAt(s, "(" + t + ")", i)
      ensures |t| == k - i - 1
    {
      OpenAt(s, t, i);
      forall j | i + 1 <= j < i + |t| + 1
        ensures !OccursAt(s, ")", j)
      {
        assert s[j] == t[j - i - 1];
      }
    }
  }

  /** With no `)` after `i + 1`, no group opens at `i`. */
  lemma NoClose(s: string, i: nat)
    requires i < |s| && forall j :: i + 1 <= j ==> !OccursAt(s, ")", j)
    ensures forall t: string :: t != [] && ')' !in t ==> !OccursAt(s, "(" + t + ")", i)
  {
    forall t: string | t != [] && ')' !in t
      ensures !OccursAt(s, "(" + t + ")", i)
    {
      if OccursAt(s, "(" + t + ")", i) {
        OpenAt(s, t, i);
      }
    }
  }

  /** No match of the expression starts at an index in `[from, stop)`. */
  ghost predicate NoGroupIn(s: string, from: int, stop: int) {
    forall i: int, t: string :: from <= i < stop && t != [] && ')' !in t ==> !OccursAt(s, "(" + t + ")", i)
  }

  /** The leftmost match of the expression at or after `from`: its group, found at an index before
      which no match starts; `None` when no match starts at or after `from`. */
  function FirstGroupFrom(s: string, from: nat): (g: Option<string>)
    ensures g.Some? ==> g.value != [] && ')' !in g.value
    ensures g.Some? ==> exists i :: from <= i < |s| && OccursAt(s, "(" + g.value + ")", i) && NoGroupIn(s, from, i)
    ensures g.None? ==> NoGroupIn(s, from, |s|)
    decreases |s| - from
  {
    if from >= |s| then None
    else
      match GroupAt(s, from)
      case Some(g) => Some(g)
      case None =>
        NoGroupExtends(s, from);
        FirstGroupFrom(s, from + 1)
  }

  /** An index where no match starts extends every match-free range that begins right after it. */
  lemma NoGroupExtends(s: string, from: nat)
    requires from < |s| && GroupAt(s, from).None?
    ensures forall stop :: NoGroupIn(s, from + 1, stop) ==> NoGroupIn(s, from, stop)
  {
  }

  /** The Vietnamese half: the group of the leftmost match, or the empty string when there is none. */
  function VietnameseExample(example: string): (r: string)
    ensures ')' !in r
    ensures r == [] <==> NoGroupIn(example, 0, |example|)
    ensures r != [] ==> exists i :: OccursAt(example, "(" + r + ")", i) && NoGroupIn(example, 0, i)
  {
    match FirstGroupFrom(example, 0)
    case Some(g) => g
    case None => ""
  }

  /** Positions without `(` never start a match. */
  lemma {:induction false} FirstGroupSkips(s: string, start: nat, stop: nat)
    requires start <= stop <= |s|
    requires forall j :: start <= j < stop ==> s[j] != '('
    ensures FirstGroupFrom(s, start) == FirstGroupFrom(s, stop)
    decreases stop - start
  {
    if start < stop {
      NoOpen(s, start);
      FirstGroupSkips(s, start + 1, stop);
    }
  }

  /** With no `(` in it, the whole example is English and there is no Vietnamese half. */
  lemma NoParenthesis(example: string)
    requires '(' !in example
    ensures EnglishExample(example) == Trim(example)
    ensures VietnameseExample(example) == ""
  {
    var p := BeforeFirstParen(example);
    assert |p| == |example|;
    assert p == example;
    FirstGroupSkips(example, 0, |example|);
  }

  /** At most one group without `)` opens at a given index. */
  lemma GroupUnique(s: string, t1: string, t2: string, i: nat)
    requires ')' !in t1 && ')' !in t2
    requires OccursAt(s, "(" + t1 + ")", i) && OccursAt(s, "(" + t2 + ")", i)
    ensures t1 == t2
  {
    OpenAt(s, t1, i);
    OpenAt(s, t2, i);
    assert |t1| == |t2|;
  }

  /** The catalog's format round-trips: "english (vietnamese)" splits back into the trimmed English
      sentence and the Vietnamese sentence, when the English has no `(` and the Vietnamese is
      non-empty with no `)`. */
  lemma ExampleRoundTrip(english: string, vietnamese: string)
    requires '(' !in english
    requires vietnamese != [] && ')' !in vietnamese
    ensures EnglishExample(english + " (" + vietnamese + ")") == Trim(english)
    ensures VietnameseExample(english + " (" + vietnamese + ")") == vietnamese
  {
    var s := english + " (" + vietnamese + ")";
    var o := |english| + 1;
    forall j | 0 <= j < o
      ensures s[j] != '('
    {
      if j < |english| {
        assert s[j] == english[j];
      }
    }
    assert s[..o] == english + " " && s[o] == '(';
    assert s[o..] == "(" + vietnamese + ")";
    assert OccursAt(s, "(" + vietnamese + ")", o);
    EnglishHalf(s, english, o);
    VietnameseHalf(s, vietnamese, o);
  }

  lemma EnglishHalf(s: string, english: string, o: nat)
    requires o == |english| + 1 < |s| && s[..o] == english + " " && s[o] == '('
    requires forall j :: 0 <= j < o ==> s[j] != '('
    ensures EnglishExample(s) == Trim(english)
  {
    var p := BeforeFirstParen(s);
    assert |p| == o;
    assert p == english + " ";
    TrimIgnoresTrailingWhitespace(english, ' ');
  }

  lemma VietnameseHalf(s: string, vietnamese: string, o: nat)
    requires vietnamese != [] && ')' !in vietnamese
    requires o < |s| && OccursAt(s, "(" + vietnamese + ")", o)
    requires forall j :: 0 <= j < o ==> s[j] != '('
    ensures VietnameseExample(s) == vietnamese
  {
    FirstGroupSkips(s, 0, o);
    var g := GroupAt(s, o);
    assert g.Some?;
    GroupUnique(s, g.value, vietnamese, o);
  }
}
