/**
 * The Boston trivia quiz: a question screen with one button per answer, a
 * Next button that appears once an answer has been picked, and a final
 * screen with the score, from which a restart button starts over.
 */
module Trivia {
  import opened Optional

  /** A question, reduced to what the quiz logic uses: its answers in order and the correct one. */
  datatype Question = Question(answers: seq<string>, correct: string)

  datatype AnswerButton = AnswerButton(text: string, disabled: bool)

  /** Which of the two boxes is displayed: the question box or the final screen. */
  datatype Screen = QuizScreen | FinalScreen

  /** The line under the answers: empty, "Correct!" or "Incorrect!". */
  datatype Message = NoMessage | CorrectMessage | IncorrectMessage

  /** The final screen's `score / total` line. */
  datatype ScoreLine = ScoreLine(score: nat, total: nat)

  const QUESTIONS: seq<Question> := [
    Question(["Celtics", "Patriots", "Red Sox", "Bruins"], "Celtics"),
    Question(["David Ortiz", "Larry Bird", "Tom Brady", "Bobby Orr"], "David Ortiz"),
    Question(["2007", "2001", "2014", "1996"], "2007"),
    Question(["Cam Neely", "Bobby Orr", "Ray Bourque", "Patrice Bergeron"], "Bobby Orr")
  ]

  /** Every question's correct answer is one of its answer buttons. */
  lemma CorrectIsAnAnswer()
    ensures forall q :: q in QUESTIONS ==> q.correct in q.answers
  {
  }

  /** Whatever question of the bank is shown, one of its buttons offers the correct answer. */
  lemma CorrectAnswerOffered(i: nat, buttons: seq<AnswerButton>, disabled: bool)
    requires i < |QUESTIONS| && ShowsAnswers(buttons, QUESTIONS[i].answers, disabled)
    ensures exists j :: 0 <= j < |buttons| && buttons[j].text == QUESTIONS[i].correct
  {
    CorrectIsAnAnswer();
    assert QUESTIONS[i] in QUESTIONS;
    var j :| 0 <= j < |QUESTIONS[i].answers| && QUESTIONS[i].answers[j] == QUESTIONS[i].correct;
    assert buttons[j].text == QUESTIONS[i].correct;
  }

  /** One button per answer, in the answers' order, all enabled or all disabled. */
  predicate ShowsAnswers(buttons: seq<AnswerButton>, answers: seq<string>, disabled: bool)
  {
    && |buttons| == |answers|
    && forall i :: 0 <= i < |buttons| ==> buttons[i] == AnswerButton(answers[i], disabled)
  }

  class Quiz {
    const questions: seq<Question>
    var currentIndex: nat
    var score: nat
    var buttons: seq<AnswerButton>
    var message: Message
    var nextVisible: bool
    var screen: Screen
    var finalScoreText: Option<ScoreLine>

    /**
     * While a question is shown its buttons are all enabled until an answer
     * is picked and all disabled after, and Next is visible exactly then; so
     * at most one point is scored per question. The final screen comes
     * after the last question and its score is at most the number of
     * questions; Next, shown by the last answer, is never hidden again.
     */
    ghost predicate Valid()
      reads this
    {
      && |questions| > 0
      && (screen == QuizScreen ==>
            && currentIndex < |questions|
            && ShowsAnswers(buttons, questions[currentIndex].answers, nextVisible)
            && (nextVisible <==> message != NoMessage)
            && score <= currentIndex + (if nextVisible then 1 else 0))
      && (screen == FinalScreen ==>
            && currentIndex >= |questions|
            && nextVisible
            && score <= |questions|
            && finalScoreText == Some(ScoreLine(score, |questions|))
            && forall i :: 0 <= i < |buttons| ==> buttons[i].disabled)
    }

    /** Page load: the first question is shown. */
    constructor (bank: seq<Question>)
      requires |bank| > 0
      ensures Valid() && questions == bank
      ensures currentIndex == 0 && score == 0 && screen == QuizScreen
      ensures ShowsAnswers(buttons, bank[0].answers, false) && message == NoMessage && !nextVisible
    {
      questions := bank;
      currentIndex := 0;
      score := 0;
      screen := QuizScreen;
      finalScoreText := None;
      new;
      LoadQuestion();
    }

    /** `loadQuestion`: clears the buttons and the message, hides Next, adds one button per answer. */
    method LoadQuestion()
      requires currentIndex < |questions|
      modifies this`buttons, this`message, this`nextVisible
      ensures ShowsAnswers(buttons, questions[currentIndex].answers, false)
      ensures message == NoMessage && !nextVisible
    {
      buttons := [];
      message := NoMessage;
      nextVisible := false;
      var answers := questions[currentIndex].answers;
      for k := 0 to |answers|
        modifies this`buttons
        invariant ShowsAnswers(buttons, answers[..k], false)
      {
        buttons := buttons + [AnswerButton(answers[k], false)];
      }
      assert answers[..|answers|] == answers;
    }

    /** `checkAnswer`: one point for the correct answer, then every button is disabled and Next shown. */
    method CheckAnswer(selected: string)
      requires currentIndex < |questions|
      modifies this`score, this`message, this`buttons, this`nextVisible
      ensures score == old(score) + (if selected == questions[currentIndex].correct then 1 else 0)
      ensures message == if selected == questions[currentIndex].correct then CorrectMessage else IncorrectMessage
      ensures |buttons| == |old(buttons)|
      ensures forall i :: 0 <= i < |buttons| ==> buttons[i] == old(buttons[i]).(disabled := true)
      ensures nextVisible
    {
      var correct := questions[currentIndex].correct;
      if selected == correct {
        score := score + 1;
        message := CorrectMessage;
      } else {
        message := IncorrectMessage;
      }
      for k := 0 to |buttons|
        modifies this`buttons
        invariant |buttons| == |old(buttons)|
        invariant forall i :: 0 <= i < k ==> buttons[i] == old(buttons[i]).(disabled := true)
        invariant forall i :: k <= i < |buttons| ==> buttons[i] == old(buttons[i])
      {
        buttons := buttons[k := buttons[k].(disabled := true)];
      }
      nextVisible := true;
    }

    /** A click on answer button `k`; a disabled button does not react. */
    method ClickAnswer(k: nat)
      requires Valid() && k < |buttons|
      modifies this`score, this`message, this`buttons, this`nextVisible
      ensures Valid()
      ensures old(buttons[k].disabled) ==> unchanged(this)
      ensures !old(buttons[k].disabled) ==>
        && screen == QuizScreen && !old(nextVisible) && nextVisible
        && score == old(score) + (if old(buttons[k].text) == questions[currentIndex].correct then 1 else 0)
        && message == (if old(buttons[k].text) == questions[currentIndex].correct then CorrectMessage else IncorrectMessage)
        && ShowsAnswers(buttons, questions[currentIndex].answers, true)
    {
      if !buttons[k].disabled {
        CheckAnswer(buttons[k].text);
      }
    }

    /** `showFinalScreen`: hides the question box and shows `score / questions.length`. */
    method ShowFinalScreen()
      modifies this`screen, this`finalScoreText
      ensures screen == FinalScreen && finalScoreText == Some(ScoreLine(score, |questions|))
    {
      screen := FinalScreen;
      finalScoreText := Some(ScoreLine(score, |questions|));
    }

    /**
     * A click on Next, which only reacts while it is shown: the index
     * advances, then the next question or the final screen. Nothing hides
     * Next once the last question is answered, so a click on the final
     * screen advances the index again and shows the final screen again.
     */
    method ClickNext()
      requires Valid()
      modifies this
      ensures Valid()
      ensures !old(nextVisible) ==> unchanged(this)
      ensures old(nextVisible) ==>
        && currentIndex == old(currentIndex) + 1 && score == old(score)
        && (screen == QuizScreen <==> currentIndex < |questions|)
        && (screen == QuizScreen ==>
              && ShowsAnswers(buttons, questions[currentIndex].answers, false) && message == NoMessage && !nextVisible
              && finalScoreText == old(finalScoreText))
        && (screen == FinalScreen ==>
              && finalScoreText == Some(ScoreLine(score, |questions|)) && nextVisible
              && buttons == old(buttons) && message == old(message))
    {
      if !nextVisible {
        return;
      }
      currentIndex := currentIndex + 1;
      if currentIndex < |questions| {
        LoadQuestion();
      } else {
        ShowFinalScreen();
      }
    }

    /** The restart button: back to the first question with no points. */
    method Restart()
      requires Valid()
      modifies this
      ensures Valid()
      ensures currentIndex == 0 && score == 0 && screen == QuizScreen
      ensures ShowsAnswers(buttons, questions[0].answers, false) && message == NoMessage && !nextVisible
      ensures finalScoreText == old(finalScoreText)
    {
      currentIndex := 0;
      score := 0;
      screen := QuizScreen;
      LoadQuestion();
    }
  }
}
