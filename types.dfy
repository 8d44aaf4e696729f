/** The entities of the application that the scheduler and its consumers share. */
module Types {
  import opened Common

  /** A learner's self-reported recall quality for one review. */
  datatype Grade = Again | Good | Easy

  /** Timestamps are whole minutes on an abstract clock; the caller supplies "now". */
  type Timestamp = int

  /** One vocabulary entry of the catalog; `english` is its key in the progress store. */
  datatype Word = Word(
    english: string, wordType: string, pronunciation: string,
    vietnamese: string, color: string, example: string)

  /** Scheduling state of one word for one learner. */
  datatype StudyRecord = StudyRecord(srsLevel: int, nextReview: Timestamp, lastAnswer: Option<Grade>)

  /** The progress store: word key to study record. */
  type StudyProgress = map<string, StudyRecord>

  /** The Common European Framework levels, easiest first. */
  datatype CefrLevel = A1 | A2 | B1 | B2 | C1 | C2

  /** A word category shown in the flashcard view. */
  datatype Category = Category(id: string, name: string, level: CefrLevel, words: seq<Word>)
}
