/** The static question list of the quiz, its point total and the score a
    list of recorded answers earns against it. */
module QuizData {

  /** One multiple-choice question: its options, the correct option and the
      points it is worth. The prompt shown above the options is kept apart,
      in `Prompts`, because nothing the game computes depends on it. */
  datatype Question = Question(options: seq<string>, answer: string, points: nat)

  /** The five questions of the game, worth 1 to 5 points. */
  const Questions: seq<Question> := [
    Question(["bus", "car", "bike", "train"], "bus", 1),
    Question(["blue", "red", "green", "yellow"], "red", 2),
    Question(["downtown", "airport", "suburbs", "station"], "downtown", 3),
    Question(["black", "blue", "brown", "gray"], "brown", 4),
    Question(["10:30am", "10:30pm", "4:30pm", "2:30pm"], "10:30am", 5)
  ]

  /** The prompt of each question, in the same order. */
  const Prompts: seq<string> := [
    "What type of vehicle is the man getting on?",
    "What color is the bus?",
    "Where is the bus headed?",
    "What color is the man's jacket?",
    "What time of day is it?"
  ]

  /** A question the game can ask: its options are non-empty strings, its
      answer is one of them, and it is worth something. */
  predicate QuestionWellFormed(q: Question)
  {
    && q.answer in q.options
    && 0 < q.points
    && (forall k | 0 <= k < |q.options| :: |q.options[k]| > 0)
  }

  /** No option is offered twice (each one is also the key of its radio
      button). */
  predicate Distinct(options: seq<string>)
  {
    forall j, k | 0 <= j < k < |options| :: options[j] != options[k]
  }

  /** A question list the game can be played with: every question is well
      formed, and the points strictly increase along the list. */
  predicate WellFormed(qs: seq<Question>)
  {
    && (forall i | 0 <= i < |qs| :: QuestionWellFormed(qs[i]))
    && (forall i, j | 0 <= i < j < |qs| :: qs[i].points < qs[j].points)
  }

  /** The sum of all points, folded from the left as `reduce` does. */
  function TotalPoints(qs: seq<Question>): (total: nat)
    ensures forall i | 0 <= i < |qs| :: qs[i].points <= total
  {
    if qs == [] then 0 else TotalPoints(qs[..|qs| - 1]) + qs[|qs| - 1].points
  }

  /** Whether the recorded answer at position `i` is the correct one. A
      position without a recorded answer is never correct. */
  predicate Correct(qs: seq<Question>, answers: seq<string>, i: nat)
  {
    i < |answers| && i < |qs| && answers[i] == qs[i].answer
  }

  /** Every recorded answer is one of the options of its question. */
  predicate Recorded(qs: seq<Question>, answers: seq<string>)
  {
    |answers| <= |qs| && forall i | 0 <= i < |answers| :: answers[i] in qs[i].options
  }

  /** Recording an option of the next question keeps the answers recorded. */
  lemma RecordedSnoc(qs: seq<Question>, answers: seq<string>, a: string)
    requires Recorded(qs, answers) && |answers| < |qs|
    requires a in qs[|answers|].options
    ensures Recorded(qs, answers + [a])
  {
  }

  /** The points earned by the recorded answers: the sum of `qs[i].points`
      over the positions `i` whose answer is correct. */
  function Earned(qs: seq<Question>, answers: seq<string>): (earned: nat)
    requires |answers| <= |qs|
  {
    if answers == [] then 0
    else
      var n := |answers| - 1;
      Earned(qs, answers[..n]) + (if answers[n] == qs[n].answer then qs[n].points else 0)
  }

  /** The score is at least the points of each correctly answered question, and
      answers none of which is correct earn nothing. */
  lemma {:induction false} EarnedCountsCorrect(qs: seq<Question>, answers: seq<string>)
    requires |answers| <= |qs|
    ensures forall i | 0 <= i < |answers| :: Correct(qs, answers, i) ==> qs[i].points <= Earned(qs, answers)
    ensures (forall i | 0 <= i < |answers| :: !Correct(qs, answers, i)) ==> Earned(qs, answers) == 0
  {
    if answers != [] {
      var n := |answers| - 1;
      EarnedCountsCorrect(qs, answers[..n]);
      assert Earned(qs, answers)
          == Earned(qs, answers[..n]) + (if Correct(qs, answers, n) then qs[n].points else 0);
      forall i | 0 <= i < n
        ensures Correct(qs, answers[..n], i) == Correct(qs, answers, i)
      {
      }
    }
  }

  /** Every built-in question can be answered: its answer is one of its
      non-empty options, and it is worth something. */
  lemma QuestionsAnswerable()
    ensures forall i | 0 <= i < |Questions| :: QuestionWellFormed(Questions[i])
  {
    forall i | 0 <= i < |Questions| ensures QuestionWellFormed(Questions[i]) {
      var q := Questions[i];
      assert q.answer == q.options[0] || q.answer == q.options[1] || q.answer == q.options[2];
    }
  }

  /** The built-in points strictly increase along the list. */
  lemma QuestionsPointsIncrease()
    ensures forall i, j | 0 <= i < j < |Questions| :: Questions[i].points < Questions[j].points
  {
    forall i, j | 0 <= i < j < |Questions| ensures Questions[i].points < Questions[j].points {
      assert Questions[i].points == i + 1 && Questions[j].points == j + 1;
    }
  }

  /** The built-in question list is well formed and has a prompt per question. */
  lemma QuestionsWellFormed()
    ensures WellFormed(Questions)
    ensures |Prompts| == |Questions|
  {
    QuestionsAnswerable();
    QuestionsPointsIncrease();
  }

  /** Every built-in question offers four different options. */
  lemma QuestionsOptionsDistinct()
    ensures forall i | 0 <= i < |Questions| :: |Questions[i].options| == 4 && Distinct(Questions[i].options)
  {
    forall i | 0 <= i < |Questions|
      ensures |Questions[i].options| == 4 && Distinct(Questions[i].options)
    {
      var o := Questions[i].options;
      assert o[0] != o[1] && o[0] != o[2] && o[0] != o[3];
      assert o[1] != o[2] && o[1] != o[3];
      assert o[2] != o[3];
    }
  }

  /** The built-in question list is worth 15 points. */
  lemma QuestionsTotal()
    ensures TotalPoints(Questions) == 15
  {
    assert TotalPoints(Questions[..1]) == 1 by { assert Questions[..1][..0] == []; }
    assert TotalPoints(Questions[..2]) == 3 by { assert Questions[..2][..1] == Questions[..1]; }
    assert TotalPoints(Questions[..3]) == 6 by { assert Questions[..3][..2] == Questions[..2]; }
    assert TotalPoints(Questions[..4]) == 10 by { assert Questions[..4][..3] == Questions[..3]; }
    assert Questions[..|Questions| - 1] == Questions[..4];
  }

  /** Recording one more answer adds the points of its question exactly when
      that answer is correct. */
  lemma EarnedSnoc(qs: seq<Question>, answers: seq<string>, a: string)
    requires |answers| < |qs|
    ensures Earned(qs, answers + [a])
         == Earned(qs, answers) + (if a == qs[|answers|].answer then qs[|answers|].points else 0)
  {
    assert (answers + [a])[..|answers|] == answers;
  }

  /** The points earned never exceed the points of the questions answered. */
  lemma {:induction false} EarnedAtMostPrefixTotal(qs: seq<Question>, answers: seq<string>)
    requires |answers| <= |qs|
    ensures Earned(qs, answers) <= TotalPoints(qs[..|answers|])
  {
    if answers != [] {
      var n := |answers| - 1;
      EarnedAtMostPrefixTotal(qs, answers[..n]);
      assert qs[..|answers|][..n] == qs[..n];
    }
  }

  /** Dropping questions from the end never raises the total. */
  lemma {:induction false} PrefixTotalAtMostTotal(qs: seq<Question>, k: nat)
    requires k <= |qs|
    ensures TotalPoints(qs[..k]) <= TotalPoints(qs)
  {
    if k < |qs| {
      PrefixTotalAtMostTotal(qs[..|qs| - 1], k);
      assert qs[..|qs| - 1][..k] == qs[..k];
    } else {
      assert qs[..k] == qs;
    }
  }

  /** A score is between 0 and the total of the whole list. */
  lemma EarnedAtMostTotal(qs: seq<Question>, answers: seq<string>)
    requires |answers| <= |qs|
    ensures Earned(qs, answers) <= TotalPoints(qs)
  {
    EarnedAtMostPrefixTotal(qs, answers);
    PrefixTotalAtMostTotal(qs, |answers|);
  }

  /** With one answer per question and every question worth something, the
      answers earn the full total exactly when every one of them is correct. */
  lemma {:induction false} FullMarksIffAllCorrect(qs: seq<Question>, answers: seq<string>)
    requires |answers| == |qs|
    requires forall i | 0 <= i < |qs| :: 0 < qs[i].points
    ensures Earned(qs, answers) == TotalPoints(qs)
        <==> forall i | 0 <= i < |qs| :: Correct(qs, answers, i)
  {
    if answers != [] {
      var n := |answers| - 1;
      var qs', answers' := qs[..n], answers[..n];
      assert qs[..|qs| - 1] == qs';
      FullMarksIffAllCorrect(qs', answers');
      EarnedAgrees(qs, qs', answers');
      EarnedAtMostPrefixTotal(qs', answers');
      assert qs'[..n] == qs';
      // Earned(qs, answers) == Earned(qs', answers') + bonus, and the total
      // grows by qs[n].points, so full marks need the last answer right too.
      var bonus := if answers[n] == qs[n].answer then qs[n].points else 0;
      assert Earned(qs, answers) == Earned(qs', answers') + bonus;
      assert TotalPoints(qs) == TotalPoints(qs') + qs[n].points;
      if forall i | 0 <= i < |qs| :: Correct(qs, answers, i) {
        assert Correct(qs, answers, n);
        forall i | 0 <= i < n ensures Correct(qs', answers', i) {
          assert Correct(qs, answers, i);
        }
      } else {
        var j :| 0 <= j < |qs| && !Correct(qs, answers, j);
        if j < n {
          assert !Correct(qs', answers', j);
        }
      }
    }
  }

  /** Earned only looks at the questions that have an answer. */
  lemma {:induction false} EarnedAgrees(qs: seq<Question>, qs': seq<Question>, answers: seq<string>)
    requires |answers| <= |qs| && |answers| <= |qs'|
    requires forall i | 0 <= i < |answers| :: qs[i] == qs'[i]
    ensures Earned(qs, answers) == Earned(qs', answers)
  {
    if answers != [] {
      EarnedAgrees(qs, qs', answers[..|answers| - 1]);
    }
  }

  /** Answering every built-in question correctly earns all 15 points. */
  lemma AllCorrectEarnsFifteen(answers: seq<string>)
    requires |answers| == |Questions|
    requires forall j | 0 <= j < |Questions| :: answers[j] == Questions[j].answer
    ensures Earned(Questions, answers) == 15
  {
    QuestionsWellFormed();
    QuestionsTotal();
    FullMarksIffAllCorrect(Questions, answers);
  }
}
