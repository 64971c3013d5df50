/** The quiz generator (lib/quizGenerator.ts). `Math.random` is replaced by
    explicit oracles: a shuffle reads its k-th swap from `draws(k)`, and each
    question of a quiz reads its two coin flips and its two shuffles' draws
    from the entry for its pool position. */
module QuizGenerator {
  import opened Text
  import opened Types

  // ---------------------------------------------------------------------
  // Fisher-Yates shuffle
  // ---------------------------------------------------------------------

  function Swap<T>(s: seq<T>, i: nat, j: nat): seq<T>
    requires i < |s| && j < |s|
  {
    s[i := s[j]][j := s[i]]
  }

  lemma SwapPermutes<T>(s: seq<T>, i: nat, j: nat)
    requires i < |s| && j < |s|
    ensures |Swap(s, i, j)| == |s|
    ensures multiset(Swap(s, i, j)) == multiset(s)
  {
    var t := s[i := s[j]];
    assert multiset(t) == multiset(s) - multiset{s[i]} + multiset{s[j]};
    assert multiset(t[j := s[i]]) == multiset(t) - multiset{t[j]} + multiset{s[i]};
  }

  /** The swap partner of position `i`, at the `k`-th step:
      `Math.floor(Math.random() * (i + 1))`, any index in 0..i. */
  function SwapIndex(draws: nat -> nat, k: nat, i: nat): (j: nat)
    ensures j <= i
  {
    draws(k) % (i + 1)
  }

  /** The steps of the shuffle loop for positions i, i-1, ..., 1 applied to
      `s`; the step for position i is the (|s|-1-i)-th. */
  function ShuffleDown<T>(s: seq<T>, draws: nat -> nat, i: int): seq<T>
    requires i < |s|
    decreases i
  {
    if i <= 0 then s
    else ShuffleDown(Swap(s, i, SwapIndex(draws, |s| - 1 - i, i)), draws, i - 1)
  }

  /** What shuffle returns. */
  function Shuffled<T>(s: seq<T>, draws: nat -> nat): seq<T> {
    ShuffleDown(s, draws, |s| - 1)
  }

  lemma {:induction false} ShuffleDownPermutes<T>(s: seq<T>, draws: nat -> nat, i: int)
    requires i < |s|
    ensures |ShuffleDown(s, draws, i)| == |s|
    ensures multiset(ShuffleDown(s, draws, i)) == multiset(s)
    decreases i
  {
    if i > 0 {
      var j := SwapIndex(draws, |s| - 1 - i, i);
      SwapPermutes(s, i, j);
      ShuffleDownPermutes(Swap(s, i, j), draws, i - 1);
    }
  }

  /** The shuffle is a permutation: same length, same multiset. */
  lemma ShuffledPermutes<T>(s: seq<T>, draws: nat -> nat)
    ensures |Shuffled(s, draws)| == |s|
    ensures multiset(Shuffled(s, draws)) == multiset(s)
  {
    ShuffleDownPermutes(s, draws, |s| - 1);
  }

  /** `s.map(f)`. */
  function Map<T, U>(s: seq<T>, f: T -> U): (r: seq<U>)
    ensures |r| == |s|
  {
    seq(|s|, i requires 0 <= i < |s| => f(s[i]))
  }

  lemma MapAppend<T, U>(a: seq<T>, b: seq<T>, f: T -> U)
    ensures Map(a + b, f) == Map(a, f) + Map(b, f)
  {
    assert forall i :: 0 <= i < |a| + |b| ==> Map(a + b, f)[i] == (Map(a, f) + Map(b, f))[i];
  }

  lemma MapSwap<T, U>(s: seq<T>, i: nat, j: nat, f: T -> U)
    requires i < |s| && j < |s|
    ensures Map(Swap(s, i, j), f) == Swap(Map(s, f), i, j)
  {
  }

  lemma {:induction false} ShuffleDownMap<T, U>(s: seq<T>, draws: nat -> nat, i: int, f: T -> U)
    requires i < |s|
    ensures Map(ShuffleDown(s, draws, i), f) == ShuffleDown(Map(s, f), draws, i)
    decreases i
  {
    if i > 0 {
      var j := SwapIndex(draws, |s| - 1 - i, i);
      MapSwap(s, i, j, f);
      ShuffleDownMap(Swap(s, i, j), draws, i - 1, f);
    }
  }

  /** The shuffle depends on positions only: shuffling and then mapping is
      mapping and then shuffling with the same draws. */
  lemma ShuffledMap<T, U>(s: seq<T>, draws: nat -> nat, f: T -> U)
    ensures Map(Shuffled(s, draws), f) == Shuffled(Map(s, f), draws)
  {
    ShuffleDownMap(s, draws, |s| - 1, f);
  }

  /** shuffle: a copy of the input, permuted in place from the last position
      down; the input itself is a value and cannot change. */
  method Shuffle<T>(arr: seq<T>, draws: nat -> nat) returns (r: seq<T>)
    ensures r == Shuffled(arr, draws)
    ensures |r| == |arr| && multiset(r) == multiset(arr)
  {
    var a := new T[|arr|](k requires 0 <= k < |arr| => arr[k]);
    ghost var cur := arr;
    ghost var target := Shuffled(arr, draws);
    assert a[..] == cur;
    var i := a.Length - 1;
    while i > 0
      invariant -1 <= i < a.Length == |cur| == |arr|
      invariant a[..] == cur
      invariant ShuffleDown(cur, draws, i) == target
    {
      var j := SwapIndex(draws, a.Length - 1 - i, i);
      SwapAt(a, i, j);
      ghost var prev := cur;
      cur := Swap(prev, i, j);
      assert ShuffleDown(cur, draws, i - 1) == target by {
        ShuffleDownStep(prev, draws, i, j);
      }
      i := i - 1;
    }
    r := a[..];
    ShuffledPermutes(arr, draws);
  }

  /** Exchanges two cells of `a` in place. */
  method SwapAt<T>(a: array<T>, i: nat, j: nat)
    requires i < a.Length && j < a.Length
    modifies a
    ensures a[..] == Swap(old(a[..]), i, j)
  {
    a[i], a[j] := a[j], a[i];
  }

  /** One step of the shuffle loop. */
  lemma ShuffleDownStep<T>(s: seq<T>, draws: nat -> nat, i: nat, j: nat)
    requires 0 < i < |s| && j == SwapIndex(draws, |s| - 1 - i, i)
    ensures ShuffleDown(Swap(s, i, j), draws, i - 1) == ShuffleDown(s, draws, i)
  {
  }

  // ---------------------------------------------------------------------
  // Descriptions and distractors
  // ---------------------------------------------------------------------

  /** A text usable as the description of an item with term `term`. */
  predicate Describes(s: string, term: string) {
    HasContent(s) && s != term
  }

  /** getDescription: whatItIs if usable, else definition if usable, else the
      term itself. */
  function GetDescription(item: StudyItem): (r: string)
    ensures Describes(item.whatItIs, item.term) ==> r == item.whatItIs
    ensures !Describes(item.whatItIs, item.term) && Describes(item.definition, item.term) ==> r == item.definition
    ensures r != item.term <==> Describes(item.whatItIs, item.term) || Describes(item.definition, item.term)
    ensures r != item.term ==> HasContent(r)
  {
    if Describes(item.whatItIs, item.term) then item.whatItIs
    else if Describes(item.definition, item.term) then item.definition
    else item.term
  }

  /** The "Not specified" sentinel never counts as content, nor does "". */
  lemma SentinelHasNoContent(s: string)
    ensures NotSpecified <= s ==> !HasContent(s)
    ensures !HasContent("")
    ensures !HasContent("Not specified in the JSON.")
  {
  }

  /** pickDistractors's filter: other items whose whatItIs is usable. */
  predicate IsCandidate(correct: StudyItem, item: StudyItem) {
    item.id != correct.id && Describes(item.whatItIs, item.term)
  }

  function Candidates(correct: StudyItem, pool: seq<StudyItem>): seq<StudyItem> {
    if pool == [] then []
    else
      var last := pool[|pool| - 1];
      Candidates(correct, pool[..|pool| - 1]) + (if IsCandidate(correct, last) then [last] else [])
  }

  /** The filter keeps each qualifying pool entry as often as it occurs. */
  lemma {:induction false} CandidatesSpec(correct: StudyItem, pool: seq<StudyItem>)
    ensures forall x :: x in Candidates(correct, pool) <==> x in pool && IsCandidate(correct, x)
    ensures multiset(Candidates(correct, pool)) <= multiset(pool)
  {
    if pool != [] {
      var last := pool[|pool| - 1];
      assert pool == pool[..|pool| - 1] + [last];
      CandidatesSpec(correct, pool[..|pool| - 1]);
    }
  }

  /** pickDistractors: the first `count` of the shuffled candidates. */
  function PickDistractors(correct: StudyItem, pool: seq<StudyItem>, count: nat, draws: nat -> nat): seq<StudyItem> {
    var candidates := Candidates(correct, pool);
    ShuffledPermutes(candidates, draws);
    Shuffled(candidates, draws)[..Min(count, |candidates|)]
  }

  /** At most `count` distractors, as many as there are candidates up to
      that; each is a pool item other than the correct one with a usable
      whatItIs, and none is picked more often than it occurs in the pool. */
  lemma PickDistractorsSpec(correct: StudyItem, pool: seq<StudyItem>, count: nat, draws: nat -> nat)
    ensures var r := PickDistractors(correct, pool, count, draws);
            && |r| == Min(count, |Candidates(correct, pool)|) <= count
            && (forall d :: d in r ==> d in pool && d.id != correct.id && HasContent(d.whatItIs) && d.whatItIs != d.term)
            && multiset(r) <= multiset(pool)
  {
    var candidates := Candidates(correct, pool);
    var shuffled := Shuffled(candidates, draws);
    var r := PickDistractors(correct, pool, count, draws);
    ShuffledPermutes(candidates, draws);
    CandidatesSpec(correct, pool);
    assert shuffled == r + shuffled[|r|..];
    assert multiset(r) <= multiset(shuffled);
    forall d | d in r
      ensures d in pool && IsCandidate(correct, d)
    {
      assert d in multiset(shuffled);
      assert d in candidates;
    }
  }

  // ---------------------------------------------------------------------
  // Question synthesis
  // ---------------------------------------------------------------------

  function Descriptions(items: seq<StudyItem>): seq<string> {
    Map(items, GetDescription)
  }

  /** The options tagged with whether they are the right one (the first). */
  function Tagged(options: seq<string>): seq<(string, bool)> {
    seq(|options|, i requires 0 <= i < |options| => (options[i], i == 0))
  }

  function OptionText(o: (string, bool)): string {
    o.0
  }

  function Texts(tagged: seq<(string, bool)>): seq<string> {
    Map(tagged, OptionText)
  }

  /** `findIndex((o) => o.wasCorrect)`: the first tagged entry, or -1. */
  function FindCorrect(s: seq<(string, bool)>): (r: int)
    ensures -1 <= r < |s|
    ensures r >= 0 ==> s[r].1 && forall j :: 0 <= j < r ==> !s[j].1
    ensures r == -1 ==> forall j :: 0 <= j < |s| ==> !s[j].1
  {
    if s == [] then -1
    else if s[0].1 then 0
    else
      var k := FindCorrect(s[1..]);
      if k < 0 then -1 else k + 1
  }

  /** The statement text: the description with a full stop added unless it
      already ends with one. */
  function Sentence(d: string): string {
    var lower := Lower(d);
    if |lower| > 0 && lower[|lower| - 1] == '.' then d else d + "."
  }

  /** generateMultipleChoice: null when the item has no usable description
      or fewer than three distractors exist; otherwise the description and
      three distractor descriptions, shuffled, with the right one's index. */
  function GenerateMultipleChoice(item: StudyItem, allItems: seq<StudyItem>,
                                  distractorDraws: nat -> nat, optionDraws: nat -> nat): Option<QuizQuestion> {
    var desc := GetDescription(item);
    if desc == item.term then None
    else
      var distractors := PickDistractors(item, allItems, 3, distractorDraws);
      if |distractors| < 3 then None
      else
        var options := [desc] + Descriptions(distractors);
        var shuffled := Shuffled(Tagged(options), optionDraws);
        Some(QuizQuestion("mc-" + item.id, "What is \"" + item.term + "\"?",
                          Choice(Texts(shuffled), FindCorrect(shuffled)), desc, item.id))
  }

  /** Exactly one tagged entry survives the shuffle, carrying the
      description, and the texts are the options shuffled with the same
      draws. */
  lemma ShuffledOptions(options: seq<string>, draws: nat -> nat)
    requires |options| > 0
    ensures var shuffled := Shuffled(Tagged(options), draws);
            var idx := FindCorrect(shuffled);
            && 0 <= idx < |shuffled| == |options|
            && shuffled[idx] == (options[0], true)
            && Texts(shuffled) == Shuffled(options, draws)
  {
    var tagged := Tagged(options);
    var shuffled := Shuffled(tagged, draws);
    ShuffledPermutes(tagged, draws);
    assert tagged[0] in multiset(shuffled);
    var idx := FindCorrect(shuffled);
    assert idx >= 0;
    assert shuffled[idx] in multiset(tagged);
    ShuffledMap(tagged, draws, OptionText);
    forall i | 0 <= i < |options|
      ensures Texts(tagged)[i] == options[i]
    {
      assert tagged[i] == (options[i], i == 0);
      assert Texts(tagged)[i] == OptionText(tagged[i]);
    }
    assert Texts(tagged) == options;
  }

  /** The question built from a description and three distractors: four
      options, the description and the distractor descriptions shuffled,
      with the answer index on the description. */
  lemma ChoiceShape(desc: string, distractors: seq<StudyItem>, optionDraws: nat -> nat)
    requires |distractors| == 3
    ensures var options := [desc] + Descriptions(distractors);
            var shuffled := Shuffled(Tagged(options), optionDraws);
            var a := Choice(Texts(shuffled), FindCorrect(shuffled));
            && |a.options| == 4
            && 0 <= a.correctIndex < 4
            && a.options[a.correctIndex] == desc
            && a.options == Shuffled(options, optionDraws)
            && multiset(a.options) == multiset(options)
  {
    var options := [desc] + Descriptions(distractors);
    ShuffledOptions(options, optionDraws);
    ShuffledPermutes(options, optionDraws);
    var shuffled := Shuffled(Tagged(options), optionDraws);
    var idx := FindCorrect(shuffled);
    assert shuffled[idx] == (desc, true);
    assert Texts(shuffled)[idx] == OptionText(shuffled[idx]);
  }

  /** A multiple-choice question exists exactly when the item has a usable
      description and at least three candidates exist; its four options are
      the description and three distractor descriptions shuffled, the
      answer index points at the description, which is also the explanation,
      and the ids are "mc-" + item id and the item id. */
  lemma MultipleChoiceSpec(item: StudyItem, allItems: seq<StudyItem>,
                           distractorDraws: nat -> nat, optionDraws: nat -> nat)
    ensures var r := GenerateMultipleChoice(item, allItems, distractorDraws, optionDraws);
            && (r.None? <==> GetDescription(item) == item.term || |Candidates(item, allItems)| < 3)
            && (r.Some? ==>
                  var q := r.value;
                  && q.answer.Choice?
                  && |q.answer.options| == 4
                  && 0 <= q.answer.correctIndex < 4
                  && q.answer.options[q.answer.correctIndex] == GetDescription(item) == q.explanation
                  && var options := [GetDescription(item)] + Descriptions(PickDistractors(item, allItems, 3, distractorDraws));
                  && q.answer.options == Shuffled(options, optionDraws)
                  && multiset(q.answer.options) == multiset(options)
                  && q.id == "mc-" + item.id && q.itemId == item.id
                  && q.question == "What is \"" + item.term + "\"?")
  {
    var distractors := PickDistractors(item, allItems, 3, distractorDraws);
    assert |distractors| == Min(3, |Candidates(item, allItems)|) by {
      PickDistractorsSpec(item, allItems, 3, distractorDraws);
    }
    var desc := GetDescription(item);
    if desc != item.term && |Candidates(item, allItems)| >= 3 {
      ChoiceShape(desc, distractors, optionDraws);
    }
  }

  /** generateTrueFalse with the polarity coin `showTrue`: null when the item
      has no usable description; a true statement of the item's own
      description; a false one using one distractor's description, or null
      when there is none. */
  function GenerateTrueFalse(item: StudyItem, allItems: seq<StudyItem>, showTrue: bool,
                             distractorDraws: nat -> nat): Option<QuizQuestion> {
    var desc := GetDescription(item);
    if desc == item.term then None
    else if showTrue then
      Some(QuizQuestion("tf-" + item.id, "True or False: \"" + item.term + "\" is " + Sentence(desc),
                        Verdict(true), "Correct! " + item.term + " is " + desc + ".", item.id))
    else
      var distractors := PickDistractors(item, allItems, 1, distractorDraws);
      if |distractors| < 1 then None
      else
        var wrongDesc := GetDescription(distractors[0]);
        Some(QuizQuestion("tf-" + item.id, "True or False: \"" + item.term + "\" is " + Sentence(wrongDesc),
                          Verdict(false), "False. " + item.term + " is actually " + desc + ".", item.id))
  }

  /** A true/false question exists exactly when the item has a usable
      description and, for the false polarity, a candidate distractor (no
      fallback to the true polarity); its answer is the polarity, its
      explanation states the item's own description, and a false statement
      shows the description of another pool item. */
  lemma TrueFalseSpec(item: StudyItem, allItems: seq<StudyItem>, showTrue: bool, distractorDraws: nat -> nat)
    ensures var r := GenerateTrueFalse(item, allItems, showTrue, distractorDraws);
            && (r.None? <==> GetDescription(item) == item.term || (!showTrue && |Candidates(item, allItems)| == 0))
            && (r.Some? ==>
                  && r.value.answer == Verdict(showTrue)
                  && r.value.id == "tf-" + item.id && r.value.itemId == item.id
                  && Contains(r.value.explanation, GetDescription(item)))
            && (r.Some? && !showTrue ==>
                  exists d :: d in allItems && d.id != item.id
                    && r.value.question == "True or False: \"" + item.term + "\" is " + Sentence(GetDescription(d)))
  {
    PickDistractorsSpec(item, allItems, 1, distractorDraws);
    var desc := GetDescription(item);
    if desc != item.term {
      if showTrue {
        var e := "Correct! " + item.term + " is " + desc + ".";
        assert e == ("Correct! " + item.term + " is ") + desc + ".";
        ContainsInfix("Correct! " + item.term + " is ", desc, ".");
      } else if |Candidates(item, allItems)| > 0 {
        var e := "False. " + item.term + " is actually " + desc + ".";
        assert e == ("False. " + item.term + " is actually ") + desc + ".";
        ContainsInfix("False. " + item.term + " is actually ", desc, ".");
        var d := PickDistractors(item, allItems, 1, distractorDraws)[0];
        assert d in PickDistractors(item, allItems, 1, distractorDraws);
      }
    }
  }

  lemma ContainsInfix(a: string, b: string, c: string)
    ensures Contains(a + b + c, b)
  {
    var s := a + b + c;
    assert s[|a|..][..|b|] == b;
  }

  // ---------------------------------------------------------------------
  // Whole quizzes
  // ---------------------------------------------------------------------

  /** The random choices of one question: the type coin (multiple choice when
      set), the polarity coin, and the draws of its two shuffles. */
  datatype QuestionDraws = QuestionDraws(multipleChoice: bool, showTrue: bool,
                                         distractorDraws: nat -> nat, optionDraws: nat -> nat)

  /** The question generated for one pool item, null as None. */
  function Generate(item: StudyItem, allItems: seq<StudyItem>, d: QuestionDraws): Option<QuizQuestion> {
    if d.multipleChoice then GenerateMultipleChoice(item, allItems, d.distractorDraws, d.optionDraws)
    else GenerateTrueFalse(item, allItems, d.showTrue, d.distractorDraws)
  }

  /** The loop of generateQuiz from pool position `k` with `qs` collected:
      stop at the end of the pool or once `count` questions are collected. */
  function Collect(pool: seq<StudyItem>, allItems: seq<StudyItem>, count: int,
                   coins: nat -> QuestionDraws, k: nat, qs: seq<QuizQuestion>): seq<QuizQuestion>
    requires k <= |pool|
    decreases |pool| - k
  {
    if k == |pool| || |qs| >= count then qs
    else
      var gen := Generate(pool[k], allItems, coins(k));
      Collect(pool, allItems, count, coins, k + 1, if gen.Some? then qs + [gen.value] else qs)
  }

  /** What generateQuiz returns. */
  function Quiz(items: seq<StudyItem>, allItems: seq<StudyItem>, count: int, poolDraws: nat -> nat,
                coins: nat -> QuestionDraws, finalDraws: nat -> nat): seq<QuizQuestion> {
    Shuffled(Collect(Shuffled(items, poolDraws), allItems, count, coins, 0, []), finalDraws)
  }

  /** generateQuiz. */
  method GenerateQuiz(items: seq<StudyItem>, allItems: seq<StudyItem>, count: int, poolDraws: nat -> nat,
                      coins: nat -> QuestionDraws, finalDraws: nat -> nat) returns (questions: seq<QuizQuestion>)
    ensures questions == Quiz(items, allItems, count, poolDraws, coins, finalDraws)
  {
    var qs: seq<QuizQuestion> := [];
    var pool := Shuffle(items, poolDraws);
    var k := 0;
    while k < |pool|
      invariant k <= |pool|
      invariant Collect(pool, allItems, count, coins, k, qs) == Collect(pool, allItems, count, coins, 0, [])
      decreases |pool| - k
    {
      if |qs| >= count {
        break;
      }
      var gen := Generate(pool[k], allItems, coins(k));
      if gen.Some? {
        qs := qs + [gen.value];
      }
      k := k + 1;
    }
    questions := Shuffle(qs, finalDraws);
  }

  /** A question as the generators build it: a multiple-choice question has
      four options with the answer index on the explanation and id "mc-" +
      item id; a true/false one has id "tf-" + item id. */
  predicate WellFormedQuestion(q: QuizQuestion) {
    && (q.answer.Choice? ==>
          && |q.answer.options| == 4 && 0 <= q.answer.correctIndex < 4
          && q.answer.options[q.answer.correctIndex] == q.explanation
          && q.id == "mc-" + q.itemId)
    && (q.answer.Verdict? ==> q.id == "tf-" + q.itemId)
  }

  function ItemId(item: StudyItem): string {
    item.id
  }

  function QuestionItemId(q: QuizQuestion): string {
    q.itemId
  }

  function ItemIds(items: seq<StudyItem>): seq<string> {
    Map(items, ItemId)
  }

  function QuestionItemIds(qs: seq<QuizQuestion>): seq<string> {
    Map(qs, QuestionItemId)
  }

  /** Every generated question is well formed and about its pool item. */
  lemma GenerateSpec(item: StudyItem, allItems: seq<StudyItem>, d: QuestionDraws)
    ensures var g := Generate(item, allItems, d);
            g.Some? ==> WellFormedQuestion(g.value) && g.value.itemId == item.id
  {
    if d.multipleChoice {
      MultipleChoiceSpec(item, allItems, d.distractorDraws, d.optionDraws);
    } else {
      TrueFalseSpec(item, allItems, d.showTrue, d.distractorDraws);
    }
  }

  /** The loop only appends, at most one question per remaining pool item,
      and never goes past `count` once it has reached it. */
  lemma {:induction false} CollectLength(pool: seq<StudyItem>, allItems: seq<StudyItem>, count: int,
                                         coins: nat -> QuestionDraws, k: nat, qs: seq<QuizQuestion>)
    requires k <= |pool|
    ensures var r := Collect(pool, allItems, count, coins, k, qs);
            && |qs| <= |r| <= |qs| + (|pool| - k)
            && |r| <= Max(|qs|, count)
            && r[..|qs|] == qs
    decreases |pool| - k
  {
    if k < |pool| && |qs| < count {
      var gen := Generate(pool[k], allItems, coins(k));
      var qs' := if gen.Some? then qs + [gen.value] else qs;
      CollectLength(pool, allItems, count, coins, k + 1, qs');
      var r := Collect(pool, allItems, count, coins, k, qs);
      assert r[..|qs|] == r[..|qs'|][..|qs|];
    }
  }

  /** The questions the loop adds are well formed. */
  lemma {:induction false} CollectWellFormed(pool: seq<StudyItem>, allItems: seq<StudyItem>, count: int,
                                             coins: nat -> QuestionDraws, k: nat, qs: seq<QuizQuestion>)
    requires k <= |pool|
    requires forall q :: q in qs ==> WellFormedQuestion(q)
    ensures forall q :: q in Collect(pool, allItems, count, coins, k, qs) ==> WellFormedQuestion(q)
    decreases |pool| - k
  {
    if k < |pool| && |qs| < count {
      var gen := Generate(pool[k], allItems, coins(k));
      GenerateSpec(pool[k], allItems, coins(k));
      var qs' := if gen.Some? then qs + [gen.value] else qs;
      CollectWellFormed(pool, allItems, count, coins, k + 1, qs');
    }
  }

  /** The loop asks about each remaining pool entry at most once. */
  lemma {:induction false} CollectIds(pool: seq<StudyItem>, allItems: seq<StudyItem>, count: int,
                                      coins: nat -> QuestionDraws, k: nat, qs: seq<QuizQuestion>)
    requires k <= |pool|
    ensures multiset(QuestionItemIds(Collect(pool, allItems, count, coins, k, qs)))
            <= multiset(QuestionItemIds(qs)) + multiset(ItemIds(pool[k..]))
    decreases |pool| - k
  {
    if k < |pool| && |qs| < count {
      var gen := Generate(pool[k], allItems, coins(k));
      GenerateSpec(pool[k], allItems, coins(k));
      var qs' := if gen.Some? then qs + [gen.value] else qs;
      CollectIds(pool, allItems, count, coins, k + 1, qs');
      assert pool[k..] == [pool[k]] + pool[k + 1..];
      IdsStep(qs, qs', pool[k], pool[k + 1..]);
    }
  }

  /** Adding at most one question about `item` while moving past it keeps
      the item-id budget. */
  lemma IdsStep(qs: seq<QuizQuestion>, qs': seq<QuizQuestion>, item: StudyItem, rest: seq<StudyItem>)
    requires qs' == qs || (|qs'| == |qs| + 1 && qs'[..|qs|] == qs && qs'[|qs|].itemId == item.id)
    ensures multiset(QuestionItemIds(qs')) + multiset(ItemIds(rest))
            <= multiset(QuestionItemIds(qs)) + multiset(ItemIds([item] + rest))
  {
    MapAppend([item], rest, ItemId);
    assert Map([item], ItemId) == [item.id];
    if qs' != qs {
      assert qs' == qs + [qs'[|qs|]];
      MapAppend(qs, [qs'[|qs|]], QuestionItemId);
      assert Map([qs'[|qs|]], QuestionItemId) == [item.id];
    }
  }

  /** An element of a sequence without repeats occurs at most once. */
  lemma {:induction false} DistinctOnce<T>(s: seq<T>, x: T)
    requires Distinct(s)
    ensures multiset(s)[x] <= 1
  {
    if s != [] {
      var init := s[..|s| - 1];
      assert s == init + [s[|s| - 1]];
      DistinctOnce(init, x);
      assert s[|s| - 1] !in init;
    }
  }

  /** Two equal entries at different positions occur twice. */
  lemma Twice<T>(s: seq<T>, i: nat, j: nat)
    requires i < j < |s|
    ensures s[i] == s[j] ==> multiset(s)[s[i]] >= 2
  {
    assert s == s[..j] + s[j..];
    assert s[i] == s[..j][i];
    assert s[j] == s[j..][0];
  }

  /** A sub-multiset of a sequence without repeats has no repeats. */
  lemma SubMultisetDistinct<T>(a: seq<T>, b: seq<T>)
    requires multiset(a) <= multiset(b) && Distinct(b)
    ensures Distinct(a)
  {
    forall i, j | 0 <= i < j < |a|
      ensures a[i] != a[j]
    {
      Twice(a, i, j);
      DistinctOnce(b, a[i]);
    }
  }

  lemma UniqueIdsDistinct(items: seq<StudyItem>)
    requires UniqueIds(items)
    ensures Distinct(ItemIds(items))
  {
    forall i, j | 0 <= i < j < |items|
      ensures ItemIds(items)[i] != ItemIds(items)[j]
    {
      assert ItemIds(items)[i] == ItemId(items[i]);
      assert ItemIds(items)[j] == ItemId(items[j]);
    }
  }

  /** generateQuiz: at most `count` questions (none for a non-positive
      count) and at most one per item; every question is well formed and
      about one of `items`, no item yields more questions than it occurs in
      `items`, so over a corpus with unique ids no item is asked twice. */
  lemma QuizSpec(items: seq<StudyItem>, allItems: seq<StudyItem>, count: int, poolDraws: nat -> nat,
                 coins: nat -> QuestionDraws, finalDraws: nat -> nat)
    ensures var r := Quiz(items, allItems, count, poolDraws, coins, finalDraws);
            && |r| <= |items|
            && |r| <= Max(0, count)
            && (forall q :: q in r ==> WellFormedQuestion(q))
            && multiset(QuestionItemIds(r)) <= multiset(ItemIds(items))
            && (UniqueIds(items) ==> Distinct(QuestionItemIds(r)))
  {
    var pool := Shuffled(items, poolDraws);
    var collected := Collect(pool, allItems, count, coins, 0, []);
    var r := Quiz(items, allItems, count, poolDraws, coins, finalDraws);
    ShuffledPermutes(items, poolDraws);
    ShuffledPermutes(collected, finalDraws);
    CollectLength(pool, allItems, count, coins, 0, []);
    CollectWellFormed(pool, allItems, count, coins, 0, []);
    CollectIds(pool, allItems, count, coins, 0, []);
    assert pool[0..] == pool;
    ShuffledMap(items, poolDraws, ItemId);
    ShuffledPermutes(ItemIds(items), poolDraws);
    ShuffledMap(collected, finalDraws, QuestionItemId);
    ShuffledPermutes(QuestionItemIds(collected), finalDraws);
    assert QuestionItemIds([]) == [];
    forall q | q in r
      ensures WellFormedQuestion(q)
    {
      assert q in multiset(collected);
    }
    if UniqueIds(items) {
      UniqueIdsDistinct(items);
      SubMultisetDistinct(QuestionItemIds(r), ItemIds(items));
    }
  }

  // ---------------------------------------------------------------------
  // How many questions a quiz has
  // ---------------------------------------------------------------------

  /** The question pool entry `k` yields, as a sequence of zero or one. */
  function Yield(pool: seq<StudyItem>, allItems: seq<StudyItem>, coins: nat -> QuestionDraws, k: nat): (r: seq<QuizQuestion>)
    requires k < |pool|
    ensures |r| <= 1
  {
    var gen := Generate(pool[k], allItems, coins(k));
    if gen.Some? then [gen.value] else []
  }

  /** The questions the pool entries `lo..hi` yield, in pool order, leaving
      out the entries whose generator returns null. */
  function Generated(pool: seq<StudyItem>, allItems: seq<StudyItem>, coins: nat -> QuestionDraws,
                     lo: nat, hi: nat): (r: seq<QuizQuestion>)
    requires lo <= hi <= |pool|
    ensures |r| <= hi - lo
    decreases hi - lo
  {
    if lo == hi then [] else Yield(pool, allItems, coins, lo) + Generated(pool, allItems, coins, lo + 1, hi)
  }

  /** One turn of the loop appends what the current entry yields. */
  lemma CollectStep(pool: seq<StudyItem>, allItems: seq<StudyItem>, count: int,
                    coins: nat -> QuestionDraws, k: nat, qs: seq<QuizQuestion>)
    requires k < |pool| && |qs| < count
    ensures Collect(pool, allItems, count, coins, k, qs)
            == Collect(pool, allItems, count, coins, k + 1, qs + Yield(pool, allItems, coins, k))
  {
    var gen := Generate(pool[k], allItems, coins(k));
    assert qs + Yield(pool, allItems, coins, k) == if gen.Some? then qs + [gen.value] else qs;
  }

  /** Appending one entry's yield and then a later range's is appending the
      range that starts at the entry. */
  lemma GeneratedStep(pool: seq<StudyItem>, allItems: seq<StudyItem>, coins: nat -> QuestionDraws,
                      qs: seq<QuizQuestion>, k: nat, m: nat)
    requires k < m <= |pool|
    ensures |Generated(pool, allItems, coins, k, m)| == |Yield(pool, allItems, coins, k)| + |Generated(pool, allItems, coins, k + 1, m)|
    ensures (qs + Yield(pool, allItems, coins, k)) + Generated(pool, allItems, coins, k + 1, m)
            == qs + Generated(pool, allItems, coins, k, m)
  {
  }

  /** The position where the loop stops, with what it returns there. */
  lemma {:induction false} CollectStop(pool: seq<StudyItem>, allItems: seq<StudyItem>, count: int,
                                       coins: nat -> QuestionDraws, k: nat, qs: seq<QuizQuestion>) returns (m: nat)
    requires k <= |pool|
    ensures k <= m <= |pool|
    ensures Collect(pool, allItems, count, coins, k, qs) == qs + Generated(pool, allItems, coins, k, m)
    ensures m < |pool| ==> |qs| + |Generated(pool, allItems, coins, k, m)| >= count
    ensures forall m' :: k <= m' < m ==> |qs| + |Generated(pool, allItems, coins, k, m')| < count
    decreases |pool| - k
  {
    if k == |pool| || |qs| >= count {
      m := k;
      assert Collect(pool, allItems, count, coins, k, qs) == qs + Generated(pool, allItems, coins, k, k);
    } else {
      var qs' := qs + Yield(pool, allItems, coins, k);
      CollectStep(pool, allItems, count, coins, k, qs);
      m := CollectStop(pool, allItems, count, coins, k + 1, qs');
      GeneratedStep(pool, allItems, coins, qs, k, m);
      forall m' | k <= m' < m
        ensures |qs| + |Generated(pool, allItems, coins, k, m')| < count
      {
        if m' > k {
          GeneratedStep(pool, allItems, coins, qs, k, m');
        }
      }
    }
  }

  /** The loop stops at the first pool position where `count` questions are
      collected, or else at the end of the pool, and returns exactly the
      questions the entries before that position yield: it skips only the
      entries whose generator returns null. */
  lemma CollectSpec(pool: seq<StudyItem>, allItems: seq<StudyItem>, count: int, coins: nat -> QuestionDraws)
    ensures exists m :: 0 <= m <= |pool|
              && Collect(pool, allItems, count, coins, 0, []) == Generated(pool, allItems, coins, 0, m)
              && (m < |pool| ==> |Generated(pool, allItems, coins, 0, m)| >= count)
              && (forall m' :: 0 <= m' < m ==> |Generated(pool, allItems, coins, 0, m')| < count)
  {
    var none: seq<QuizQuestion> := [];
    var m := CollectStop(pool, allItems, count, coins, 0, none);
    assert none + Generated(pool, allItems, coins, 0, m) == Generated(pool, allItems, coins, 0, m);
  }

  /** An item that yields a question whatever the coins: it has a usable
      description and at least three distractor candidates. */
  predicate Usable(item: StudyItem, allItems: seq<StudyItem>) {
    GetDescription(item) != item.term && |Candidates(item, allItems)| >= 3
  }

  /** A usable item always yields a question, and an item without a usable
      description never does. */
  lemma GenerateUsable(item: StudyItem, allItems: seq<StudyItem>, d: QuestionDraws)
    ensures Usable(item, allItems) ==> Generate(item, allItems, d).Some?
    ensures GetDescription(item) == item.term ==> Generate(item, allItems, d).None?
  {
    MultipleChoiceSpec(item, allItems, d.distractorDraws, d.optionDraws);
    TrueFalseSpec(item, allItems, d.showTrue, d.distractorDraws);
  }

  /** The number of usable entries of `s`. */
  function UsableCount(s: seq<StudyItem>, allItems: seq<StudyItem>): (n: nat)
    ensures n <= |s|
    ensures (forall x :: x in s ==> Usable(x, allItems)) ==> n == |s|
  {
    if s == [] then 0
    else (if Usable(s[0], allItems) then 1 else 0) + UsableCount(s[1..], allItems)
  }

  lemma {:induction false} UsableCountAppend(a: seq<StudyItem>, b: seq<StudyItem>, allItems: seq<StudyItem>)
    ensures UsableCount(a + b, allItems) == UsableCount(a, allItems) + UsableCount(b, allItems)
  {
    if a == [] {
      assert a + b == b;
    } else {
      assert (a + b)[0] == a[0];
      assert (a + b)[1..] == a[1..] + b;
      UsableCountAppend(a[1..], b, allItems);
    }
  }

  /** Reordering a sequence keeps its number of usable entries. */
  lemma {:induction false} UsableCountPerm(a: seq<StudyItem>, b: seq<StudyItem>, allItems: seq<StudyItem>)
    requires multiset(a) == multiset(b)
    ensures UsableCount(a, allItems) == UsableCount(b, allItems)
    decreases |a|
  {
    if a == [] {
      assert |b| == |multiset(b)| == 0;
    } else {
      var x := a[0];
      assert x in multiset(b);
      var i :| 0 <= i < |b| && b[i] == x;
      var b' := b[..i] + b[i + 1..];
      assert b == b[..i] + [x] + b[i + 1..];
      assert a == [x] + a[1..];
      assert multiset(b) == multiset(b[..i]) + multiset([x]) + multiset(b[i + 1..]);
      assert multiset(b') == multiset(b[..i]) + multiset(b[i + 1..]);
      assert multiset(a) == multiset([x]) + multiset(a[1..]);
      assert multiset(a[1..]) == multiset(a) - multiset([x]);
      assert multiset(b') == multiset(b) - multiset([x]);
      UsableCountPerm(a[1..], b', allItems);
      UsableCountAppend(b[..i] + [x], b[i + 1..], allItems);
      UsableCountAppend(b[..i], [x], allItems);
      UsableCountAppend(b[..i], b[i + 1..], allItems);
    }
  }

  /** Every usable pool entry contributes its question. */
  lemma {:induction false} GeneratedUsable(pool: seq<StudyItem>, allItems: seq<StudyItem>,
                                           coins: nat -> QuestionDraws, lo: nat, hi: nat)
    requires lo <= hi <= |pool|
    ensures UsableCount(pool[lo..hi], allItems) <= |Generated(pool, allItems, coins, lo, hi)|
    decreases hi - lo
  {
    if lo < hi {
      GeneratedUsable(pool, allItems, coins, lo + 1, hi);
      GenerateUsable(pool[lo], allItems, coins(lo));
      var s := pool[lo..hi];
      assert s[0] == pool[lo] && s[1..] == pool[lo + 1..hi];
    }
  }

  /** Over one pool, the loop collects at least min(count, usable entries)
      questions. */
  lemma CollectCount(pool: seq<StudyItem>, allItems: seq<StudyItem>, count: int, coins: nat -> QuestionDraws)
    ensures Min(Max(0, count), UsableCount(pool, allItems)) <= |Collect(pool, allItems, count, coins, 0, [])|
  {
    var none: seq<QuizQuestion> := [];
    var m := CollectStop(pool, allItems, count, coins, 0, none);
    if m == |pool| {
      GeneratedUsable(pool, allItems, coins, 0, |pool|);
      assert pool[0..|pool|] == pool;
    }
  }

  /** generateQuiz collects until it has `count` questions or the pool runs
      out: a quiz has at least min(count, usable items) questions and at most
      min(|items|, count), so exactly min(|items|, count) when every item is
      usable (four usable items and a count of 10 give four questions). */
  lemma QuizCount(items: seq<StudyItem>, allItems: seq<StudyItem>, count: int, poolDraws: nat -> nat,
                  coins: nat -> QuestionDraws, finalDraws: nat -> nat)
    ensures var r := Quiz(items, allItems, count, poolDraws, coins, finalDraws);
            && Min(Max(0, count), UsableCount(items, allItems)) <= |r| <= Min(|items|, Max(0, count))
            && ((forall x :: x in items ==> Usable(x, allItems)) ==> |r| == Min(|items|, Max(0, count)))
  {
    var pool := Shuffled(items, poolDraws);
    var collected := Collect(pool, allItems, count, coins, 0, []);
    var r := Quiz(items, allItems, count, poolDraws, coins, finalDraws);
    assert |r| <= |items| && |r| <= Max(0, count) by {
      QuizSpec(items, allItems, count, poolDraws, coins, finalDraws);
    }
    assert |r| == |collected| by {
      ShuffledPermutes(collected, finalDraws);
    }
    assert UsableCount(pool, allItems) == UsableCount(items, allItems) by {
      ShuffledPermutes(items, poolDraws);
      UsableCountPerm(pool, items, allItems);
    }
    CollectCount(pool, allItems, count, coins);
  }
}
