/** The achievement evaluator (lib/gamification.ts): a fixed table of
    threshold conditions over the learner's snapshot and the filter that
    reports the ones newly earned. Titles, descriptions and icons are display
    metadata and are not carried. */
module Gamification {
  import opened Types

  /** The condition families of the table, each with its threshold. */
  datatype Condition =
    | LessonsAtLeast(n: int)
    | QuizzesAtLeast(n: int)
    | PerfectScore
    | StreakAtLeast(n: int)
    | ItemsStudiedAtLeast(n: int)
    | MasteredAtLeast(n: int)
    | XpAtLeast(n: int)

  datatype Achievement = Achievement(id: string, xpReward: int, condition: Condition)

  /** The number of items whose mastery is "mastered". */
  function MasteredCount(m: map<string, Mastery>): nat {
    |set k | k in m && m[k] == Mastered|
  }

  /** Some quiz has a stored high score of exactly 100. */
  predicate HasPerfectScore(scores: map<string, int>) {
    exists q :: q in scores && scores[q] == 100
  }

  /** Whether the learner meets a condition. */
  predicate Holds(c: Condition, p: UserProgress) {
    match c
    case LessonsAtLeast(n) => |p.completedLessons| >= n
    case QuizzesAtLeast(n) => p.totalQuizzesTaken >= n
    case PerfectScore => HasPerfectScore(p.quizHighScores)
    case StreakAtLeast(n) => p.streak >= n
    case ItemsStudiedAtLeast(n) => p.totalItemsStudied >= n
    case MasteredAtLeast(n) => MasteredCount(p.itemMastery) >= n
    case XpAtLeast(n) => p.xp >= n
  }

  /** ACHIEVEMENTS, in declaration order. */
  const Achievements: seq<Achievement> := [
    Achievement("first-lesson", 25, LessonsAtLeast(1)),
    Achievement("five-lessons", 50, LessonsAtLeast(5)),
    Achievement("twenty-lessons", 100, LessonsAtLeast(20)),
    Achievement("fifty-lessons", 200, LessonsAtLeast(50)),
    Achievement("first-quiz", 25, QuizzesAtLeast(1)),
    Achievement("ten-quizzes", 75, QuizzesAtLeast(10)),
    Achievement("perfect-score", 50, PerfectScore),
    Achievement("streak-3", 30, StreakAtLeast(3)),
    Achievement("streak-7", 75, StreakAtLeast(7)),
    Achievement("streak-30", 300, StreakAtLeast(30)),
    Achievement("items-50", 50, ItemsStudiedAtLeast(50)),
    Achievement("items-100", 100, ItemsStudiedAtLeast(100)),
    Achievement("items-300", 200, ItemsStudiedAtLeast(300)),
    Achievement("items-all", 500, ItemsStudiedAtLeast(632)),
    Achievement("mastered-10", 50, MasteredAtLeast(10)),
    Achievement("mastered-50", 150, MasteredAtLeast(50)),
    Achievement("xp-1000", 50, XpAtLeast(1000)),
    Achievement("xp-5000", 100, XpAtLeast(5000))
  ]

  /** The achievement is not yet recorded and its condition holds. */
  predicate Earned(a: Achievement, p: UserProgress) {
    a.id !in p.achievements && Holds(a.condition, p)
  }

  /** `table.filter(...)` with checkNewAchievements's callback. */
  function NewlyEarned(table: seq<Achievement>, p: UserProgress): seq<Achievement> {
    if table == [] then []
    else
      var last := table[|table| - 1];
      NewlyEarned(table[..|table| - 1], p) + (if Earned(last, p) then [last] else [])
  }

  /** The filter keeps exactly the earned entries. */
  lemma {:induction false} NewlyEarnedSpec(table: seq<Achievement>, p: UserProgress)
    ensures forall a :: a in NewlyEarned(table, p) <==> a in table && Earned(a, p)
    ensures |NewlyEarned(table, p)| <= |table|
  {
    if table != [] {
      var last := table[|table| - 1];
      assert table == table[..|table| - 1] + [last];
      NewlyEarnedSpec(table[..|table| - 1], p);
    }
  }

  /** checkNewAchievements. */
  function CheckNewAchievements(p: UserProgress): seq<Achievement> {
    NewlyEarned(Achievements, p)
  }

  /** The filter distributes over concatenation: it keeps table order. */
  lemma {:induction false} NewlyEarnedAppend(a: seq<Achievement>, b: seq<Achievement>, p: UserProgress)
    ensures NewlyEarned(a + b, p) == NewlyEarned(a, p) + NewlyEarned(b, p)
  {
    if b == [] {
      assert a + b == a;
    } else {
      var init := b[..|b| - 1];
      var last := b[|b| - 1];
      NewlyEarnedAppend(a, init, p);
      var tail := if Earned(last, p) then [last] else [];
      assert (a + b)[..|a + b| - 1] == a + init;
      assert (a + b)[|a + b| - 1] == last;
      assert NewlyEarned(a + b, p) == NewlyEarned(a + init, p) + tail;
      assert NewlyEarned(b, p) == NewlyEarned(init, p) + tail;
    }
  }

  /** A table none of whose entries is earned yields nothing. */
  lemma {:induction false} NothingEarned(table: seq<Achievement>, p: UserProgress)
    requires forall a :: a in table ==> !Earned(a, p)
    ensures NewlyEarned(table, p) == []
  {
    if table != [] {
      var init := table[..|table| - 1];
      assert forall a :: a in init ==> a in table;
      NothingEarned(init, p);
      assert !Earned(table[|table| - 1], p);
    }
  }

  /** checkNewAchievements returns exactly the table entries, in table order,
      that are not yet recorded and whose condition holds; in particular it
      never reports a recorded id. */
  lemma CheckNewAchievementsSpec(p: UserProgress)
    ensures forall a :: a in CheckNewAchievements(p) <==> a in Achievements && a.id !in p.achievements && Holds(a.condition, p)
    ensures forall a :: a in CheckNewAchievements(p) ==> a.id !in p.achievements
  {
    NewlyEarnedSpec(Achievements, p);
  }

  function Ids(as_: seq<Achievement>): seq<string> {
    seq(|as_|, i requires 0 <= i < |as_| => as_[i].id)
  }

  /** Conditions do not read the recorded achievements. */
  lemma HoldsIgnoresAchievements(c: Condition, p: UserProgress, ids: seq<string>)
    ensures Holds(c, p.(achievements := ids)) == Holds(c, p)
  {
  }

  /** Recording what was reported, and changing nothing else, leaves nothing
      new to report. */
  lemma RecordingReportedIsFinal(p: UserProgress)
    ensures CheckNewAchievements(p.(achievements := p.achievements + Ids(CheckNewAchievements(p)))) == []
  {
    var found := CheckNewAchievements(p);
    var q := p.(achievements := p.achievements + Ids(found));
    NewlyEarnedSpec(Achievements, p);
    forall a | a in Achievements
      ensures !Earned(a, q)
    {
      HoldsIgnoresAchievements(a.condition, p, q.achievements);
      if Earned(a, p) {
        var i :| 0 <= i < |found| && found[i] == a;
        assert Ids(found)[i] == a.id;
      }
    }
    NothingEarned(Achievements, q);
  }

  /** The family and threshold of a condition, for comparing conditions. */
  function Threshold(c: Condition): int {
    match c
    case LessonsAtLeast(n) => n
    case QuizzesAtLeast(n) => n
    case PerfectScore => 0
    case StreakAtLeast(n) => n
    case ItemsStudiedAtLeast(n) => n
    case MasteredAtLeast(n) => n
    case XpAtLeast(n) => n
  }

  predicate SameFamily(c: Condition, d: Condition) {
    match (c, d)
    case (LessonsAtLeast(_), LessonsAtLeast(_)) => true
    case (QuizzesAtLeast(_), QuizzesAtLeast(_)) => true
    case (PerfectScore, PerfectScore) => true
    case (StreakAtLeast(_), StreakAtLeast(_)) => true
    case (ItemsStudiedAtLeast(_), ItemsStudiedAtLeast(_)) => true
    case (MasteredAtLeast(_), MasteredAtLeast(_)) => true
    case (XpAtLeast(_), XpAtLeast(_)) => true
    case _ => false
  }

  /** Within a family, meeting a higher threshold means meeting every lower
      one. */
  lemma FamiliesNested(c: Condition, d: Condition, p: UserProgress)
    requires SameFamily(c, d) && Threshold(c) <= Threshold(d) && Holds(d, p)
    ensures Holds(c, p)
  {
  }

  /** The table's entries of one family appear with increasing thresholds,
      so the later of two earned entries implies the earlier. */
  lemma TableThresholdsIncrease()
    ensures forall i, j ::
      0 <= i < j < |Achievements| && SameFamily(Achievements[i].condition, Achievements[j].condition) ==>
        (Threshold(Achievements[i].condition) < Threshold(Achievements[j].condition)
         || Achievements[i].condition == PerfectScore)
  {
  }

  const AchievementIds: seq<string> := [
    "first-lesson", "five-lessons", "twenty-lessons", "fifty-lessons", "first-quiz", "ten-quizzes",
    "perfect-score", "streak-3", "streak-7", "streak-30", "items-50", "items-100", "items-300",
    "items-all", "mastered-10", "mastered-50", "xp-1000", "xp-5000"]

  lemma AchievementIdsListed()
    ensures Ids(Achievements) == AchievementIds
  {
  }

  lemma AchievementIdsDistinct()
    ensures forall i, j :: 0 <= i < j < |AchievementIds| ==> AchievementIds[i] != AchievementIds[j]
  {
  }

  /** Table ids are pairwise distinct. */
  lemma TableIdsDistinct()
    ensures forall i, j :: 0 <= i < j < |Achievements| ==> Achievements[i].id != Achievements[j].id
  {
    AchievementIdsListed();
    AchievementIdsDistinct();
    assert forall i :: 0 <= i < |Achievements| ==> Ids(Achievements)[i] == Achievements[i].id;
  }

  /** Every reward is positive. */
  lemma RewardsPositive()
    ensures forall a :: a in Achievements ==> a.xpReward > 0
  {
  }

  /** "perfect-score" holds exactly when some stored high score is 100, and
      "mastered-10" counts the entries equal to "mastered". */
  lemma PerfectAndMasteredConditions(p: UserProgress)
    ensures Holds(Achievements[6].condition, p) <==> exists q :: q in p.quizHighScores && p.quizHighScores[q] == 100
    ensures Holds(Achievements[14].condition, p) <==> |set k | k in p.itemMastery && p.itemMastery[k] == Mastered| >= 10
    ensures Achievements[6].id == "perfect-score" && Achievements[14].id == "mastered-10"
  {
  }
}
