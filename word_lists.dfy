/**
 * Word lists keyed by their English text, as both the flashcard deck and the story word picker
 * treat them: a word is identified by `english`, and removing it removes every entry with that key.
 */
module WordLists {
  import opened Types
  import opened Seqs

  /** `ws.some(w => w.english === english)`. */
  predicate HasKey(ws: seq<Word>, english: string) {
    exists i :: 0 <= i < |ws| && ws[i].english == english
  }

  /** No two entries share an English key. */
  predicate DistinctKeys(ws: seq<Word>) {
    forall i, j :: 0 <= i < j < |ws| ==> ws[i].english != ws[j].english
  }

  /** The condition an entry must meet to stay when `english` is removed. */
  function KeyIsNot(english: string): Word -> bool {
    (w: Word) => w.english != english
  }

  /** `ws.filter(w => w.english !== english)`. */
  function RemoveWord(ws: seq<Word>, english: string): (r: seq<Word>)
    ensures IsSubsequence(r, ws)
    ensures forall w :: w in r <==> w in ws && w.english != english
    ensures forall w: Word :: w.english != english ==> multiset(r)[w] == multiset(ws)[w]
    ensures !HasKey(r, english)
  {
    FilterContents(ws, KeyIsNot(english));
    Filter(ws, KeyIsNot(english))
  }

  /** Removing a key that is absent changes nothing. */
  lemma RemoveAbsentKey(ws: seq<Word>, english: string)
    requires !HasKey(ws, english)
    ensures RemoveWord(ws, english) == ws
  {
    FilterKeepsAll(ws, KeyIsNot(english));
  }

  /** Removing a key keeps the remaining keys distinct. */
  lemma {:induction false} RemoveKeepsDistinct(ws: seq<Word>, english: string)
    requires DistinctKeys(ws)
    ensures DistinctKeys(RemoveWord(ws, english))
    decreases |ws|
  {
    if ws != [] {
      RemoveKeepsDistinct(ws[1..], english);
      var rest := RemoveWord(ws[1..], english);
      forall i | 0 <= i < |rest|
        ensures rest[i].english != ws[0].english
      {
        assert rest[i] in ws[1..];
      }
    }
  }
}
