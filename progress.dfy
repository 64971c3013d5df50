/** The progress engine (lib/progress.ts): transitions on the learner's
    snapshot. The wall clock is replaced by the two day stamps `today` and
    `yesterday` the source reads from it; the score is exact integer
    arithmetic in place of floating point. */
module Progress {
  import opened Types

  /** The snapshot a new learner starts from. */
  const DefaultProgress: UserProgress := UserProgress(0, 0, "", [], map[], map[], [], 0, 0, 0)

  // ---------------------------------------------------------------------
  // Streak and XP
  // ---------------------------------------------------------------------

  /** updateStreak: a second study on the same day changes nothing; otherwise
      the streak grows by one when the last study was yesterday and restarts
      at one in every other case, and today becomes the last study date.
      Nothing else changes. */
  function UpdateStreak(p: UserProgress, today: string, yesterday: string): (r: UserProgress)
    ensures r.lastStudyDate == today
    ensures p.lastStudyDate == today ==> r == p
    ensures p.lastStudyDate != today ==>
      r.streak == (if p.lastStudyDate == yesterday then p.streak + 1 else 1)
    ensures r.(streak := p.streak, lastStudyDate := p.lastStudyDate) == p
  {
    if p.lastStudyDate == today then p
    else
      var streak := if p.lastStudyDate == yesterday then p.streak + 1 else 1;
      p.(streak := streak, lastStudyDate := today)
  }

  /** addXP: exactly `amount` more XP, then the streak update. */
  function AddXP(p: UserProgress, amount: int, today: string, yesterday: string): (r: UserProgress)
    ensures r.xp == p.xp + amount
    ensures r.lastStudyDate == today
    ensures r.streak == (if p.lastStudyDate == today then p.streak
                         else if p.lastStudyDate == yesterday then p.streak + 1 else 1)
    ensures r.(xp := p.xp, streak := p.streak, lastStudyDate := p.lastStudyDate) == p
  {
    UpdateStreak(p.(xp := p.xp + amount), today, yesterday)
  }

  /** Studying twice on the same day counts once. */
  lemma UpdateStreakIdempotent(p: UserProgress, today: string, yesterday: string)
    ensures UpdateStreak(UpdateStreak(p, today, yesterday), today, yesterday) == UpdateStreak(p, today, yesterday)
  {
  }

  /** One study session per entry of `days`, each a (today, yesterday) pair. */
  function StudyOn(p: UserProgress, days: seq<(string, string)>): UserProgress {
    if days == [] then p
    else
      var last := days[|days| - 1];
      UpdateStreak(StudyOn(p, days[..|days| - 1]), last.0, last.1)
  }

  /** Days that follow one another: each entry's "yesterday" is the previous
      entry's "today", and no two consecutive entries are the same day. */
  predicate Consecutive(days: seq<(string, string)>) {
    forall i :: 0 < i < |days| ==> days[i].1 == days[i - 1].0 && days[i].0 != days[i - 1].0
  }

  /** Studying on `n` consecutive days, the first of which neither is nor
      follows the last study date, gives a streak of `n`. */
  lemma {:induction false} ConsecutiveDaysStreak(p: UserProgress, days: seq<(string, string)>)
    requires days != [] && Consecutive(days)
    requires days[0].0 != p.lastStudyDate && days[0].1 != p.lastStudyDate
    ensures StudyOn(p, days).streak == |days|
    ensures StudyOn(p, days).lastStudyDate == days[|days| - 1].0
  {
    if |days| > 1 {
      var init := days[..|days| - 1];
      assert Consecutive(init) by {
        forall i | 0 < i < |init|
          ensures init[i].1 == init[i - 1].0 && init[i].0 != init[i - 1].0
        {
          assert init[i] == days[i] && init[i - 1] == days[i - 1];
        }
      }
      ConsecutiveDaysStreak(p, init);
    }
  }

  // ---------------------------------------------------------------------
  // Item mastery
  // ---------------------------------------------------------------------

  /** An item's level in a mastery map; an absent entry reads as "new". */
  function MasteryOf(m: map<string, Mastery>, id: string): Mastery {
    if id in m then m[id] else New
  }

  /** getItemMastery. */
  function GetItemMastery(p: UserProgress, itemId: string): (r: Mastery)
    ensures itemId in p.itemMastery ==> r == p.itemMastery[itemId]
    ensures itemId !in p.itemMastery ==> r == New
  {
    MasteryOf(p.itemMastery, itemId)
  }

  /** The mastery map after completeLesson's loop: every listed item that was
      absent or "new" is "seen", every other entry is kept. */
  function MarkedSeen(m: map<string, Mastery>, ids: seq<string>): map<string, Mastery> {
    map k | k in m.Keys + (set x | x in ids) :: if k in ids && MasteryOf(m, k) == New then Seen else m[k]
  }

  /** The distinct listed items that were absent or "new": the ones the loop
      counts as newly studied. */
  function FirstTimers(m: map<string, Mastery>, ids: seq<string>): set<string> {
    set k | k in ids && MasteryOf(m, k) == New
  }

  lemma MarkedSeenSpec(m: map<string, Mastery>, ids: seq<string>, k: string)
    ensures MasteryOf(MarkedSeen(m, ids), k) == (if k in FirstTimers(m, ids) then Seen else MasteryOf(m, k))
    ensures k in MarkedSeen(m, ids) <==> k in m || k in ids
  {
  }

  /** An item is a first-timer at step `i` exactly when it is not listed
      earlier and was absent or "new". */
  lemma FirstTimeAt(m: map<string, Mastery>, ids: seq<string>, i: nat)
    requires i < |ids|
    ensures var cur := MarkedSeen(m, ids[..i]);
            (ids[i] !in cur || cur[ids[i]] == New) <==> ids[i] !in ids[..i] && MasteryOf(m, ids[i]) == New
  {
  }

  lemma MarkedSeenStep(m: map<string, Mastery>, ids: seq<string>, i: nat)
    requires i < |ids|
    ensures var cur := MarkedSeen(m, ids[..i]);
            var id := ids[i];
            MarkedSeen(m, ids[..i + 1]) == if id !in cur || cur[id] == New then cur[id := Seen] else cur
  {
    var cur := MarkedSeen(m, ids[..i]);
    var id := ids[i];
    assert ids[..i + 1] == ids[..i] + [id];
    FirstTimeAt(m, ids, i);
    if id !in cur || cur[id] == New {
      assert MarkedSeen(m, ids[..i + 1]) == cur[id := Seen];
    } else {
      assert MarkedSeen(m, ids[..i + 1]) == cur;
    }
  }

  lemma FirstTimersStep(m: map<string, Mastery>, ids: seq<string>, i: nat)
    requires i < |ids|
    ensures var cur := MarkedSeen(m, ids[..i]);
            var id := ids[i];
            var firstTime := id !in cur || cur[id] == New;
            && FirstTimers(m, ids[..i + 1]) == FirstTimers(m, ids[..i]) + (if firstTime then {id} else {})
            && (firstTime ==> id !in FirstTimers(m, ids[..i]))
  {
    assert ids[..i + 1] == ids[..i] + [ids[i]];
    FirstTimeAt(m, ids, i);
  }

  /** One iteration of completeLesson's loop, on the closed forms. */
  lemma MarkedSeenSnoc(m: map<string, Mastery>, ids: seq<string>, i: nat)
    requires i < |ids|
    ensures var cur := MarkedSeen(m, ids[..i]);
            var id := ids[i];
            var firstTime := id !in cur || cur[id] == New;
            && MarkedSeen(m, ids[..i + 1]) == (if firstTime then cur[id := Seen] else cur)
            && FirstTimers(m, ids[..i + 1]) == FirstTimers(m, ids[..i]) + (if firstTime then {id} else {})
            && (firstTime ==> id !in FirstTimers(m, ids[..i]))
  {
    MarkedSeenStep(m, ids, i);
    FirstTimersStep(m, ids, i);
  }

  /** What completeLesson returns: the input when the lesson is already
      completed; otherwise the lesson appended, the listed items marked seen,
      one studied item per first-timer, and 50 XP. */
  function LessonCompleted(p: UserProgress, lessonId: string, itemIds: seq<string>,
                           today: string, yesterday: string): UserProgress {
    if lessonId in p.completedLessons then p
    else
      AddXP(p.(completedLessons := p.completedLessons + [lessonId],
               itemMastery := MarkedSeen(p.itemMastery, itemIds),
               totalItemsStudied := p.totalItemsStudied + |FirstTimers(p.itemMastery, itemIds)|),
            50, today, yesterday)
  }

  /** completeLesson. */
  method CompleteLesson(p: UserProgress, lessonId: string, itemIds: seq<string>,
                        today: string, yesterday: string) returns (r: UserProgress)
    ensures r == LessonCompleted(p, lessonId, itemIds, today, yesterday)
  {
    if lessonId in p.completedLessons {
      return p;
    }
    var mastery := p.itemMastery;
    var studied := p.totalItemsStudied;
    for i := 0 to |itemIds|
      invariant mastery == MarkedSeen(p.itemMastery, itemIds[..i])
      invariant studied == p.totalItemsStudied + |FirstTimers(p.itemMastery, itemIds[..i])|
    {
      MarkedSeenSnoc(p.itemMastery, itemIds, i);
      var id := itemIds[i];
      if id !in mastery || mastery[id] == New {
        mastery := mastery[id := Seen];
        studied := studied + 1;
      }
    }
    assert itemIds[..|itemIds|] == itemIds;
    r := AddXP(p.(completedLessons := p.completedLessons + [lessonId],
                  itemMastery := mastery,
                  totalItemsStudied := studied),
               50, today, yesterday);
  }

  /** Completing a lesson twice is completing it once. */
  lemma CompleteLessonIdempotent(p: UserProgress, lessonId: string, itemIds: seq<string>,
                                 today: string, yesterday: string)
    ensures var once := LessonCompleted(p, lessonId, itemIds, today, yesterday);
            LessonCompleted(once, lessonId, itemIds, today, yesterday) == once
  {
    if lessonId !in p.completedLessons {
      var once := LessonCompleted(p, lessonId, itemIds, today, yesterday);
      assert once.completedLessons == p.completedLessons + [lessonId];
      assert lessonId in once.completedLessons;
    }
  }

  /** A firstTime completion: the lesson is appended, exactly 50 XP are awarded,
      each listed item that was absent or "new" becomes "seen" and is counted
      once however often it is listed, and every other entry is kept. */
  lemma CompleteLessonEffect(p: UserProgress, lessonId: string, itemIds: seq<string>,
                             today: string, yesterday: string)
    requires lessonId !in p.completedLessons
    ensures var r := LessonCompleted(p, lessonId, itemIds, today, yesterday);
            && r.completedLessons == p.completedLessons + [lessonId]
            && r.xp == p.xp + 50
            && r.totalItemsStudied - p.totalItemsStudied == |FirstTimers(p.itemMastery, itemIds)| <= |itemIds|
            && (forall k :: k in itemIds && MasteryOf(p.itemMastery, k) == New ==> MasteryOf(r.itemMastery, k) == Seen)
            && (forall k :: !(k in itemIds && MasteryOf(p.itemMastery, k) == New) ==>
                  (k in r.itemMastery <==> k in p.itemMastery) && MasteryOf(r.itemMastery, k) == MasteryOf(p.itemMastery, k))
  {
    var r := LessonCompleted(p, lessonId, itemIds, today, yesterday);
    forall k
      ensures MasteryOf(r.itemMastery, k) == (if k in FirstTimers(p.itemMastery, itemIds) then Seen else MasteryOf(p.itemMastery, k))
      ensures k in r.itemMastery <==> k in p.itemMastery || k in itemIds
    {
      MarkedSeenSpec(p.itemMastery, itemIds, k);
    }
    FirstTimersBound(p.itemMastery, itemIds);
  }

  lemma {:induction false} FirstTimersBound(m: map<string, Mastery>, ids: seq<string>)
    ensures |FirstTimers(m, ids)| <= |ids|
  {
    if ids != [] {
      var init := ids[..|ids| - 1];
      var x := ids[|ids| - 1];
      FirstTimersBound(m, init);
      assert ids == init + [x];
      if x !in init && MasteryOf(m, x) == New {
        assert FirstTimers(m, ids) == FirstTimers(m, init) + {x};
      } else {
        assert FirstTimers(m, ids) == FirstTimers(m, init);
      }
    }
  }

  // ---------------------------------------------------------------------
  // Quiz results
  // ---------------------------------------------------------------------

  /** `Math.round(correct / total * 100)` in exact arithmetic: round half up
      of 100c/t. */
  function Score(correct: int, total: int): int
    requires total > 0
  {
    (200 * correct + total) / (2 * total)
  }

  /** The score is the integer nearest 100c/t, halves rounding up. */
  lemma ScoreRounding(correct: int, total: int)
    requires total > 0
    ensures -total <= 200 * correct - 2 * total * Score(correct, total) < total
  {
    var s := Score(correct, total);
    var n := 200 * correct + total;
    assert n == 2 * total * s + n % (2 * total);
  }

  /** Scores of c out of t lie in 0..100, and all-correct scores 100. */
  lemma ScoreBounds(correct: int, total: int)
    requires 0 <= correct <= total && total > 0
    ensures 0 <= Score(correct, total) <= 100
    ensures correct == total ==> Score(correct, total) == 100
  {
    ScoreRounding(correct, total);
    var s := Score(correct, total);
    MulSign(total, 2 * s - 201);
    MulSign(total, 2 * s + 1);
    MulSign(total, 2 * s - 199);
  }

  /** The sign of a product with a positive factor is the other factor's. */
  lemma MulSign(t: int, x: int)
    requires t > 0
    ensures x >= 0 ==> t * x >= 0
    ensures x <= 0 ==> t * x <= 0
  {
  }

  /** Below 200 questions a score of 100 means every answer was right. */
  lemma PerfectScoreMeansAllCorrect(correct: int, total: int)
    requires 0 <= correct <= total < 200 && total > 0
    ensures Score(correct, total) == 100 <==> correct == total
  {
    ScoreBounds(correct, total);
    ScoreRounding(correct, total);
  }

  /** From 200 questions on, one wrong answer can still round to 100. */
  lemma NearPerfectRoundsUp()
    ensures Score(199, 200) == 100
  {
  }

  /** One answer's effect on a level: a right answer moves new and seen to
      learning and learning to mastered; a wrong answer demotes mastered to
      learning; everything else stays. */
  function NextLevel(cur: Mastery, correct: bool): (r: Mastery)
    ensures correct ==> Rank(r) >= Rank(cur) && (cur != Mastered ==> Rank(r) > Rank(cur))
    ensures correct ==> Rank(r) >= Rank(Learning) && (r == Mastered <==> cur == Learning || cur == Mastered)
    ensures !correct ==> Rank(r) <= Rank(cur) <= Rank(r) + 1 && (r != cur <==> cur == Mastered)
  {
    if correct then
      (if cur == New || cur == Seen then Learning else if cur == Learning then Mastered else cur)
    else
      (if cur == Mastered then Learning else cur)
  }

  datatype ItemResult = ItemResult(itemId: string, correct: bool)

  /** One iteration of recordQuizResult's loop: the entry is written only
      when the level changes, so an absent item answered wrongly stays
      absent. */
  function MasteryStep(m: map<string, Mastery>, r: ItemResult): map<string, Mastery> {
    var current := MasteryOf(m, r.itemId);
    if r.correct then
      if current == New || current == Seen then m[r.itemId := Learning]
      else if current == Learning then m[r.itemId := Mastered]
      else m
    else
      if current == Mastered then m[r.itemId := Learning] else m
  }

  /** The mastery map after the whole loop. */
  function MasteryAfter(m: map<string, Mastery>, results: seq<ItemResult>): map<string, Mastery> {
    if results == [] then m
    else MasteryStep(MasteryAfter(m, results[..|results| - 1]), results[|results| - 1])
  }

  /** The loop step moves the answered item along NextLevel and touches no
      other entry. */
  lemma MasteryStepSpec(m: map<string, Mastery>, r: ItemResult, k: string)
    ensures MasteryOf(MasteryStep(m, r), k)
         == (if k == r.itemId then NextLevel(MasteryOf(m, k), r.correct) else MasteryOf(m, k))
    ensures k != r.itemId ==> (k in MasteryStep(m, r) <==> k in m)
  {
  }

  /** The answers given about item `k`, in order. */
  function AnswersFor(results: seq<ItemResult>, k: string): seq<bool> {
    if results == [] then []
    else
      var last := results[|results| - 1];
      AnswersFor(results[..|results| - 1], k) + (if last.itemId == k then [last.correct] else [])
  }

  /** The level reached from `cur` after the answers `answers`. */
  function Replay(cur: Mastery, answers: seq<bool>): Mastery {
    if answers == [] then cur
    else NextLevel(Replay(cur, answers[..|answers| - 1]), answers[|answers| - 1])
  }

  /** Items are independent: an item's final level is its starting level
      replayed through its own answers only. */
  lemma {:induction false} MasteryAfterPerItem(m: map<string, Mastery>, results: seq<ItemResult>, k: string)
    ensures MasteryOf(MasteryAfter(m, results), k) == Replay(MasteryOf(m, k), AnswersFor(results, k))
  {
    if results != [] {
      var init := results[..|results| - 1];
      var last := results[|results| - 1];
      MasteryAfterPerItem(m, init, k);
      MasteryStepSpec(MasteryAfter(m, init), last, k);
      var a := AnswersFor(init, k);
      if last.itemId == k {
        assert (a + [last.correct])[..|a|] == a;
      } else {
        assert a + [] == a;
      }
    }
  }

  /** Items that received no answer keep their entry, present or absent. */
  lemma {:induction false} MasteryAfterUntouched(m: map<string, Mastery>, results: seq<ItemResult>, k: string)
    requires forall r :: r in results ==> r.itemId != k
    ensures k in MasteryAfter(m, results) <==> k in m
    ensures MasteryOf(MasteryAfter(m, results), k) == MasteryOf(m, k)
  {
    if results != [] {
      var init := results[..|results| - 1];
      assert forall r :: r in init ==> r in results;
      MasteryAfterUntouched(m, init, k);
      MasteryStepSpec(MasteryAfter(m, init), results[|results| - 1], k);
    }
  }

  /** The stored high score of a quiz, absent reading as 0. */
  function PrevBest(scores: map<string, int>, quizId: string): int {
    if quizId in scores then scores[quizId] else 0
  }

  /** XP for a quiz: ten per right answer and a 25 bonus for a score of 100. */
  function QuizXP(correct: int, score: int): int {
    correct * 10 + (if score == 100 then 25 else 0)
  }

  /** What recordQuizResult returns. */
  function QuizRecorded(p: UserProgress, quizId: string, correct: int, total: int,
                        results: seq<ItemResult>, today: string, yesterday: string): UserProgress
    requires total > 0
  {
    var score := Score(correct, total);
    AddXP(p.(quizHighScores := p.quizHighScores[quizId := Max(score, PrevBest(p.quizHighScores, quizId))],
             itemMastery := MasteryAfter(p.itemMastery, results),
             totalQuizzesTaken := p.totalQuizzesTaken + 1,
             totalCorrectAnswers := p.totalCorrectAnswers + correct),
          QuizXP(correct, score), today, yesterday)
  }

  /** recordQuizResult. The source divides by `total` in floating point and
      yields NaN for zero; the model requires a positive total. */
  method RecordQuizResult(p: UserProgress, quizId: string, correct: int, total: int,
                          results: seq<ItemResult>, today: string, yesterday: string) returns (r: UserProgress)
    requires total > 0
    ensures r == QuizRecorded(p, quizId, correct, total, results, today, yesterday)
  {
    var score := (200 * correct + total) / (2 * total);
    var prevBest := if quizId in p.quizHighScores then p.quizHighScores[quizId] else 0;
    var mastery := p.itemMastery;
    for i := 0 to |results|
      invariant mastery == MasteryAfter(p.itemMastery, results[..i])
    {
      assert results[..i + 1][..i] == results[..i];
      var res := results[i];
      var current := if res.itemId in mastery then mastery[res.itemId] else New;
      if res.correct {
        if current == New || current == Seen {
          mastery := mastery[res.itemId := Learning];
        } else if current == Learning {
          mastery := mastery[res.itemId := Mastered];
        }
      } else {
        if current == Mastered {
          mastery := mastery[res.itemId := Learning];
        }
      }
    }
    assert results[..|results|] == results;
    var xpGain := correct * 10 + (if score == 100 then 25 else 0);
    r := AddXP(p.(quizHighScores := p.quizHighScores[quizId := Max(score, prevBest)],
                  itemMastery := mastery,
                  totalQuizzesTaken := p.totalQuizzesTaken + 1,
                  totalCorrectAnswers := p.totalCorrectAnswers + correct),
               xpGain, today, yesterday);
  }

  /** The counters of a recorded quiz: the high score is the better of the
      old one (0 when absent) and the new score, so it never decreases, and no
      other quiz's score moves; one more quiz, `correct` more right answers,
      and 10 XP per right answer plus 25 for a score of 100. */
  lemma QuizRecordedCounters(p: UserProgress, quizId: string, correct: int, total: int,
                             results: seq<ItemResult>, today: string, yesterday: string)
    requires total > 0
    ensures var r := QuizRecorded(p, quizId, correct, total, results, today, yesterday);
            && r.quizHighScores[quizId] == Max(Score(correct, total), PrevBest(p.quizHighScores, quizId))
            && r.quizHighScores[quizId] >= PrevBest(p.quizHighScores, quizId)
            && r.quizHighScores[quizId] >= Score(correct, total)
            && (forall q :: q != quizId ==>
                  && (q in r.quizHighScores <==> q in p.quizHighScores)
                  && (q in p.quizHighScores ==> r.quizHighScores[q] == p.quizHighScores[q]))
            && r.totalQuizzesTaken == p.totalQuizzesTaken + 1
            && r.totalCorrectAnswers == p.totalCorrectAnswers + correct
            && r.xp == p.xp + correct * 10 + (if Score(correct, total) == 100 then 25 else 0)
            && r.completedLessons == p.completedLessons && r.achievements == p.achievements
            && r.totalItemsStudied == p.totalItemsStudied
  {
  }

  /** Read through getItemMastery, a first completion of a lesson leaves no
      listed item at "new" and lowers no item's level. */
  lemma CompleteLessonMastery(p: UserProgress, lessonId: string, itemIds: seq<string>,
                              today: string, yesterday: string)
    requires lessonId !in p.completedLessons
    ensures var r := LessonCompleted(p, lessonId, itemIds, today, yesterday);
            && (forall k :: k in itemIds ==> GetItemMastery(r, k) != New)
            && (forall k :: Rank(GetItemMastery(p, k)) <= Rank(GetItemMastery(r, k)))
  {
    CompleteLessonEffect(p, lessonId, itemIds, today, yesterday);
  }

  /** Read through getItemMastery, after a quiz each item's level is its
      level before the quiz replayed through its own answers in order. */
  lemma QuizMastery(p: UserProgress, quizId: string, correct: int, total: int,
                    results: seq<ItemResult>, today: string, yesterday: string, k: string)
    requires total > 0
    ensures GetItemMastery(QuizRecorded(p, quizId, correct, total, results, today, yesterday), k)
            == Replay(GetItemMastery(p, k), AnswersFor(results, k))
  {
    MasteryAfterPerItem(p.itemMastery, results, k);
  }

  // ---------------------------------------------------------------------
  // Levels
  // ---------------------------------------------------------------------

  const Thresholds: seq<int> := [0, 100, 250, 500, 1000, 1750, 2750, 4000, 5500, 7500, 10000]

  const Titles: seq<string> := ["Beginner", "Novice", "Apprentice", "Student", "Coder", "Developer",
                                "Engineer", "Architect", "Expert", "Master", "Grandmaster"]

  datatype LevelInfo = LevelInfo(level: int, currentXP: int, requiredXP: int, title: string)

  /** `i` is the index the search settles on: the largest threshold not
      above `xp`, or 0 when even the first is above it. */
  predicate IsLevelIndex(xp: int, i: int) {
    && 0 <= i < |Thresholds|
    && (i == 0 || Thresholds[i] <= xp)
    && forall j :: i < j < |Thresholds| ==> xp < Thresholds[j]
  }

  /** The thresholds strictly increase. */
  lemma ThresholdsIncrease()
    ensures forall i, j :: 0 <= i < j < |Thresholds| ==> Thresholds[i] < Thresholds[j]
  {
  }

  /** At most one index qualifies. */
  lemma LevelIndexUnique(xp: int, i: int, j: int)
    requires IsLevelIndex(xp, i) && IsLevelIndex(xp, j)
    ensures i == j
  {
  }

  /** getLevel: a descending search with `break`. */
  method GetLevel(xp: int) returns (r: LevelInfo)
    ensures IsLevelIndex(xp, r.level - 1)
    ensures r.currentXP == xp - Thresholds[r.level - 1]
    ensures r.requiredXP == if r.level < |Thresholds| then Thresholds[r.level] - Thresholds[r.level - 1] else 2500
    ensures r.title == Titles[r.level - 1]
  {
    var level := 0;
    var i := |Thresholds| - 1;
    while i >= 0
      invariant -1 <= i < |Thresholds|
      invariant level == 0
      invariant forall j :: i < j < |Thresholds| ==> xp < Thresholds[j]
    {
      if xp >= Thresholds[i] {
        level := i;
        break;
      }
      i := i - 1;
    }
    var currentXP := xp - Thresholds[level];
    var requiredXP := if level < |Thresholds| - 1 then Thresholds[level + 1] - Thresholds[level] else 2500;
    r := LevelInfo(level + 1, currentXP, requiredXP, Titles[level]);
  }

  /** The levels of 0, 99 and 100 XP: level 1, level 1, and level 2 with no
      XP into it. */
  lemma LevelExamples()
    ensures IsLevelIndex(0, 0) && IsLevelIndex(99, 0) && IsLevelIndex(100, 1)
    ensures 100 - Thresholds[1] == 0
  {
  }

  /** Every XP total has its level index; below the second threshold,
      negative totals included, it is the first level. */
  lemma LevelIndexExists(xp: int)
    ensures exists i :: IsLevelIndex(xp, i)
  {
    var i := |Thresholds| - 1;
    while i > 0 && Thresholds[i] > xp
      invariant 0 <= i < |Thresholds|
      invariant forall j :: i < j < |Thresholds| ==> xp < Thresholds[j]
    {
      i := i - 1;
    }
    assert IsLevelIndex(xp, i);
  }
}
