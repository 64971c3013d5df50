/** The entities shared by the curriculum builder, the quiz generator, the
    progress engine and the achievement evaluator (lib/types.ts). */
module Types {

  datatype Option<T> = None | Some(value: T)

  /** The fixed enumeration of item kinds. */
  datatype Kind = Concept | Tool | Command | Library | Service | Pattern | Framework | LanguageFeature

  /** The kind's spelling in the corpus. */
  function KindName(k: Kind): string {
    match k
    case Concept => "concept"
    case Tool => "tool"
    case Command => "command"
    case Library => "library"
    case Service => "service"
    case Pattern => "pattern"
    case Framework => "framework"
    case LanguageFeature => "language-feature"
  }

  /** One study item of the corpus. The descriptive fields hold prose or a
      text starting with the "Not specified" sentinel. */
  datatype StudyItem = StudyItem(
    id: string,
    term: string,
    definition: string,
    kind: Kind,
    language: string,
    project: string,
    category: string,
    whatItIs: string,
    whyItExists: string,
    whereItRuns: string,
    whatItTouches: string,
    whatBreaks: string,
    projectUsage: string,
    commonConfusion: string)

  /** A chunk of at most five items of one category inside a module. */
  datatype Lesson = Lesson(
    id: string,
    moduleId: string,
    title: string,
    description: string,
    items: seq<StudyItem>,
    order: nat)

  /** A thematic group of items with the lessons derived from them (the icon
      and colour are display metadata and are not carried). */
  datatype Module = Module(
    id: string,
    title: string,
    description: string,
    categories: seq<string>,
    items: seq<StudyItem>,
    lessons: seq<Lesson>)

  /** The answer of a question: an option index for multiple choice (the only
      kind that has options), a boolean for true/false. */
  datatype Answer = Choice(options: seq<string>, correctIndex: int) | Verdict(value: bool)

  datatype QuizQuestion = QuizQuestion(
    id: string,
    question: string,
    answer: Answer,
    explanation: string,
    itemId: string)

  /** Per-item mastery, ordered new < seen < learning < mastered. */
  datatype Mastery = New | Seen | Learning | Mastered

  function Rank(m: Mastery): nat {
    match m
    case New => 0
    case Seen => 1
    case Learning => 2
    case Mastered => 3
  }

  /** The learner's snapshot. Dictionaries become maps; the id lists stay
      sequences, as the source appends to them. */
  datatype UserProgress = UserProgress(
    xp: int,
    streak: int,
    lastStudyDate: string,
    completedLessons: seq<string>,
    itemMastery: map<string, Mastery>,
    quizHighScores: map<string, int>,
    achievements: seq<string>,
    totalItemsStudied: int,
    totalQuizzesTaken: int,
    totalCorrectAnswers: int)

  predicate Distinct<T(==)>(s: seq<T>) {
    forall i, j :: 0 <= i < j < |s| ==> s[i] != s[j]
  }

  function Min(a: int, b: int): int {
    if a <= b then a else b
  }

  function Max(a: int, b: int): int {
    if a >= b then a else b
  }

  /** No two positions of the corpus hold the same id. */
  predicate UniqueIds(items: seq<StudyItem>) {
    forall i, j :: 0 <= i < j < |items| ==> items[i].id != items[j].id
  }
}
