/** One play-through of the quiz: the session state of the App component,
    the handlers that change it, and what the screens derive from it. */
module QuizSession {
  import opened QuizData
  import opened ShareText

  datatype Option<T> = None | Some(value: T)

  /** The three screens the component renders. */
  datatype Phase = Intro | Playing | Finished

  /** The screen shown for the two flags: the intro while neither is set,
      the recap once the game is finished, the questions otherwise. */
  function PhaseOf(gameStarted: bool, gameFinished: bool): (p: Phase)
    ensures p == Intro <==> !gameStarted && !gameFinished
    ensures p == Playing <==> gameStarted && !gameFinished
    ensures p == Finished <==> gameFinished
  {
    if !gameStarted && !gameFinished then Intro
    else if gameFinished then Finished
    else Playing
  }

  const NoAnswer: string := "(No answer)"

  /** The recap text for question `i`: the recorded answer, or the
      placeholder when nothing (or the empty string) was recorded. */
  function RecapAnswer(answers: seq<string>, i: nat): (text: string)
    ensures text != ""
    ensures text == NoAnswer || (i < |answers| && text == answers[i])
  {
    if i < |answers| && answers[i] != "" then answers[i] else NoAnswer
  }

  /** The colour of recap entry `i`: green when the recorded answer is the
      question's answer, red otherwise (also when nothing was recorded). */
  function RecapColour(answers: seq<string>, i: nat): (colour: string)
    requires i < |Questions|
    ensures colour == "green" || colour == "red"
    ensures colour == "green" <==> Correct(Questions, answers, i)
  {
    if i < |answers| && answers[i] == Questions[i].answer then "green" else "red"
  }

  /** The points of the question after `index`, or nothing on the last one. */
  function NextPoints(index: nat): (r: Option<nat>)
    requires index < |Questions|
    ensures r.Some? <==> index + 1 < |Questions|
    ensures r.Some? ==> r.value == Questions[index + 1].points
  {
    if index < |Questions| - 1 then Some(Questions[index + 1].points) else None
  }

  /** The label of the button that moves on. A missing or zero point value
      counts as false, as it does in the template's condition. */
  function NextLabel(index: nat): (text: string)
    requires index < |Questions|
    ensures text != "Finish Game" <==> NextPoints(index).Some? && NextPoints(index).value != 0
    ensures text != "Finish Game" ==>
              text == "Try " + DecimalString(Questions[index + 1].points) + " point question"
  {
    match NextPoints(index)
    case Some(p) => if p != 0 then "Try " + DecimalString(p) + " point question" else "Finish Game"
    case None => "Finish Game"
  }

  /** The heading of the recap screen. */
  function Heading(score: nat): (text: string)
    ensures text == "Congratulations!" || text == "Good effort!"
    ensures text == "Congratulations!" <==> score == TotalPoints(Questions)
  {
    if score == TotalPoints(Questions) then "Congratulations!" else "Good effort!"
  }

  /** Each question after the current one is worth more, so the button
      offers a bigger question, and it says "Finish Game" exactly on the
      last question. */
  lemma NextLabelFinishesOnlyOnLast(index: nat)
    requires index < |Questions|
    ensures NextPoints(index).Some? ==> NextPoints(index).value > Questions[index].points
    ensures NextLabel(index) == "Finish Game" <==> index == |Questions| - 1
  {
    QuestionsWellFormed();
    var text := NextLabel(index);
    if index < |Questions| - 1 {
      assert text[0] == 'T';
    }
  }

  /** The state of one play-through, one field per `useState` of the
      component. `showAgainUses` is a ghost count of the show-again clicks
      that took effect since the game started. */
  class Session {
    var gameStarted: bool
    var showImage: bool
    var usedShowAgain: bool
    var currentQuestionIndex: nat
    var selectedAnswer: string
    var submitted: bool
    var score: nat
    var gameFinished: bool
    var userAnswers: seq<string>
    ghost var showAgainUses: nat

    /** The session invariant: the index names a question; one answer is
        recorded per question left behind (plus the current one once it is
        submitted, and all of them once the game is finished); every
        recorded answer is an option of its question; the score is the
        points of the correctly answered questions; and show-again has
        taken effect once if it is marked used, never otherwise. */
    ghost predicate Valid()
      reads this
      ensures Valid() ==> |userAnswers| <= |Questions| && currentQuestionIndex < |Questions|
      ensures Valid() && gameFinished ==> |userAnswers| == |Questions|
    {
      && currentQuestionIndex < |Questions|
      && !(gameStarted && gameFinished)
      && (gameFinished ==>
            && currentQuestionIndex == |Questions| - 1
            && !submitted
            && selectedAnswer == ""
            && |userAnswers| == |Questions|)
      && (!gameFinished ==>
            |userAnswers| == currentQuestionIndex + (if submitted then 1 else 0))
      && Recorded(Questions, userAnswers)
      && (selectedAnswer == "" || selectedAnswer in Questions[currentQuestionIndex].options)
      && (submitted ==> userAnswers[currentQuestionIndex] == selectedAnswer)
      && score == Earned(Questions, userAnswers)
      && showAgainUses == (if usedShowAgain then 1 else 0)
    }

    function CurrentPhase(): Phase
      reads this
    {
      PhaseOf(gameStarted, gameFinished)
    }

    /** The component's initial state: the intro screen. */
    constructor ()
      ensures Valid() && CurrentPhase() == Intro
      ensures !gameStarted && !gameFinished && !showImage && !usedShowAgain
      ensures currentQuestionIndex == 0 && selectedAnswer == "" && !submitted
      ensures score == 0 && userAnswers == []
    {
      gameStarted, showImage, usedShowAgain := false, false, false;
      currentQuestionIndex, selectedAnswer, submitted := 0, "", false;
      score, gameFinished, userAnswers := 0, false, [];
      showAgainUses := 0;
    }

    /** Start (or restart) a game: every field of the previous game is
        reset, whatever state it was in, and the questions are shown. */
    method Start()
      modifies this`gameStarted, this`currentQuestionIndex, this`score, this`selectedAnswer,
               this`submitted, this`usedShowAgain, this`gameFinished, this`userAnswers,
               this`showAgainUses
      ensures Valid() && CurrentPhase() == Playing
      ensures gameStarted && !gameFinished
      ensures currentQuestionIndex == 0 && score == 0 && selectedAnswer == ""
      ensures !submitted && !usedShowAgain && userAnswers == [] && showAgainUses == 0
    {
      gameStarted := true;
      currentQuestionIndex := 0;
      score := 0;
      selectedAnswer := "";
      submitted := false;
      usedShowAgain := false;
      gameFinished := false;
      userAnswers := [];
      showAgainUses := 0;
    }

    /** Pick one of the current question's options; the radio buttons are
        disabled once the answer is submitted. */
    method Select(option: string)
      requires Valid() && CurrentPhase() == Playing && !submitted
      requires option in Questions[currentQuestionIndex].options
      modifies this`selectedAnswer
      ensures Valid() && selectedAnswer == option
    {
      selectedAnswer := option;
    }

    /** Lock in the selected answer: it is recorded, and the current
        question's points are added exactly when it is the correct one. The
        submit button is disabled once submitted or while nothing is
        selected. */
    method Submit()
      requires Valid() && CurrentPhase() == Playing
      requires !submitted && selectedAnswer != ""
      modifies this`submitted, this`userAnswers, this`score
      ensures Valid() && submitted
      ensures userAnswers == old(userAnswers) + [selectedAnswer]
      ensures var q := Questions[currentQuestionIndex];
              score == old(score) + (if selectedAnswer == q.answer then q.points else 0)
    {
      submitted := true;
      var currentQuestion := Questions[currentQuestionIndex];
      EarnedSnoc(Questions, userAnswers, selectedAnswer);
      RecordedSnoc(Questions, userAnswers, selectedAnswer);
      userAnswers := userAnswers + [selectedAnswer];
      if selectedAnswer == currentQuestion.answer {
        score := score + currentQuestion.points;
      }
    }

    /** Move on after a submission: the selection is cleared, and either
        the next question comes up or, after the last one, the game ends. */
    method Next()
      requires Valid() && CurrentPhase() == Playing && submitted
      modifies this`submitted, this`selectedAnswer, this`currentQuestionIndex,
               this`gameFinished, this`gameStarted
      ensures Valid() && !submitted && selectedAnswer == ""
      ensures old(currentQuestionIndex) < |Questions| - 1 ==>
                && currentQuestionIndex == old(currentQuestionIndex) + 1
                && gameStarted && !gameFinished && CurrentPhase() == Playing
      ensures old(currentQuestionIndex) == |Questions| - 1 ==>
                && currentQuestionIndex == old(currentQuestionIndex)
                && !gameStarted && gameFinished && CurrentPhase() == Finished
    {
      submitted := false;
      selectedAnswer := "";
      if currentQuestionIndex < |Questions| - 1 {
        currentQuestionIndex := currentQuestionIndex + 1;
      } else {
        gameFinished := true;
        gameStarted := false;
      }
    }

    /** Show the image once more. Only the first click of a game has an
        effect; any later click changes nothing. */
    method ShowAgain()
      requires Valid() && CurrentPhase() == Playing
      modifies this`showImage, this`usedShowAgain, this`showAgainUses
      ensures Valid() && usedShowAgain && showAgainUses == 1
      ensures old(usedShowAgain) ==> showImage == old(showImage) && showAgainUses == old(showAgainUses)
      ensures !old(usedShowAgain) ==> showImage && showAgainUses == old(showAgainUses) + 1
    {
      if !usedShowAgain {
        showImage := true;
        usedShowAgain := true;
        showAgainUses := showAgainUses + 1;
      }
    }

    /** The text put on the clipboard by the share button of the recap
        screen (which score it names is `ShareDeterminesScore`). */
    method ShareScore() returns (shareText: string)
      requires Valid() && CurrentPhase() == Finished
      ensures shareText == Share(score)
    {
      shareText := Share(score);
    }

    /** In every valid state the score lies between 0 and the 15 points
        the questions are worth together. */
    lemma ScoreWithinTotal()
      requires Valid()
      ensures score <= TotalPoints(Questions) == 15
    {
      EarnedAtMostTotal(Questions, userAnswers);
      QuestionsTotal();
    }

    /** On the recap screen every question has its recorded answer, none
        shows the placeholder, and an entry is marked correct exactly when
        it equals the question's answer. */
    lemma FinishedRecap()
      requires Valid() && CurrentPhase() == Finished
      ensures |userAnswers| == |Questions|
      ensures forall i | 0 <= i < |Questions| ::
                && RecapAnswer(userAnswers, i) == userAnswers[i] != NoAnswer
                && (RecapColour(userAnswers, i) == "green" <==> RecapAnswer(userAnswers, i) == Questions[i].answer)
    {
      QuestionsWellFormed();
      forall i | 0 <= i < |Questions|
        ensures RecapAnswer(userAnswers, i) == userAnswers[i] != NoAnswer
      {
        assert userAnswers[i] in Questions[i].options;
      }
    }

    /** The recap congratulates the player exactly when every recorded
        answer is correct, that is, exactly when every recap entry is green. */
    lemma CongratulatedIffAllCorrect()
      requires Valid() && CurrentPhase() == Finished
      ensures Heading(score) == "Congratulations!"
          <==> forall i | 0 <= i < |Questions| :: Correct(Questions, userAnswers, i)
      ensures Heading(score) == "Congratulations!"
          <==> forall i | 0 <= i < |Questions| :: RecapColour(userAnswers, i) == "green"
    {
      QuestionsWellFormed();
      FullMarksIffAllCorrect(Questions, userAnswers);
      forall i | 0 <= i < |Questions|
        ensures RecapColour(userAnswers, i) == "green" <==> Correct(Questions, userAnswers, i)
      {
      }
    }
  }

  /** One round of play through the handlers: pick the current question's
      correct answer, submit it and move on. */
  method AnswerCorrectly(s: Session)
    requires s.Valid() && s.CurrentPhase() == Playing && !s.submitted
    modifies s
    ensures s.Valid() && !s.submitted
    ensures s.userAnswers == old(s.userAnswers) + [Questions[old(s.currentQuestionIndex)].answer]
    ensures old(s.currentQuestionIndex) < |Questions| - 1 ==>
              s.CurrentPhase() == Playing && s.currentQuestionIndex == old(s.currentQuestionIndex) + 1
    ensures old(s.currentQuestionIndex) == |Questions| - 1 ==> s.CurrentPhase() == Finished
  {
    QuestionsAnswerable();
    s.Select(Questions[s.currentQuestionIndex].answer);
    s.Submit();
    s.Next();
  }

  /** Answering every question of a freshly started game correctly, through
      the handlers, ends on the recap screen with all 15 points. */
  method PlayPerfectGame(s: Session)
    requires s.Valid() && s.CurrentPhase() == Playing
    requires s.currentQuestionIndex == 0 && !s.submitted
    modifies s
    ensures s.Valid() && s.CurrentPhase() == Finished && s.score == 15
  {
    var i := 0;
    while i < |Questions|
      invariant 0 <= i <= |Questions|
      invariant s.Valid() && |s.userAnswers| == i
      invariant i < |Questions| ==> s.CurrentPhase() == Playing && s.currentQuestionIndex == i && !s.submitted
      invariant i == |Questions| ==> s.CurrentPhase() == Finished
      invariant forall j | 0 <= j < i :: s.userAnswers[j] == Questions[j].answer
    {
      AnswerCorrectly(s);
      i := i + 1;
    }
    AllCorrectEarnsFifteen(s.userAnswers);
  }

  /** A perfect game is shared as 15 points, and starting again afterwards
      clears the score. The recap screen has no start button, so the restart
      calls the start handler directly: it shows what the handler does from
      any state, not a click the page offers. */
  method PerfectGameThenRestart() returns (finalScore: nat, shareText: string, restartScore: nat)
    ensures finalScore == 15
    ensures shareText == Share(15)
    ensures restartScore == 0
  {
    var s := new Session();
    s.Start();
    PlayPerfectGame(s);
    finalScore := s.score;
    shareText := s.ShareScore();
    s.Start();
    restartScore := s.score;
  }
}
