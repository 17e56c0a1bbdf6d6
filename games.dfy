/**
 * The second Boston trivia game. One Next button drives it: its label,
 * "Next Question" or "Play Again", decides whether a click advances to the
 * next question or starts a new game.
 */
module GamesTrivia {

  /** A question, reduced to what the game logic uses: its options in order and the right answer. */
  datatype TriviaQuestion = TriviaQuestion(options: seq<string>, answer: string)

  /** An answer button with its `disabled` flag and its `correct` / `incorrect` classes. */
  datatype OptionButton = OptionButton(text: string, disabled: bool, correct: bool, incorrect: bool)

  /** What the question element shows: the question at an index, or the score message. */
  datatype Prompt = Asking(index: nat) | Scored(score: nat, total: nat)

  const NEXT_QUESTION: string := "Next Question"
  const PLAY_AGAIN: string := "Play Again"

  const TRIVIA_QUESTIONS: seq<TriviaQuestion> := [
    TriviaQuestion(["Red Sox", "Patriots", "Celtics", "Bruins"], "Celtics"),
    TriviaQuestion(["Tom Brady", "Larry Bird", "David Ortiz", "Cam Neely"], "David Ortiz"),
    TriviaQuestion(["LI (51)", "XLIX (49)", "LIV (54)", "XLII (42)"], "LI (51)"),
    TriviaQuestion(["Bill Russell", "Larry Bird", "Paul Pierce", "Kareem Abdul-Jabbar"], "Larry Bird"),
    TriviaQuestion(["TD Garden", "Fenway Park", "Gillette Stadium", "Boston Garden (old)"], "TD Garden"),
    TriviaQuestion(["1", "2", "3", "4"], "4")
  ]

  /** Every question's answer is one of its options, so answering always reveals a correct button. */
  lemma AnswersAreOptions()
    ensures forall q :: q in TRIVIA_QUESTIONS ==> q.answer in q.options
  {
  }

  /** Whatever question of the bank is shown, one of its fresh buttons offers the answer. */
  lemma AnswerOffered(i: nat, buttons: seq<OptionButton>)
    requires i < |TRIVIA_QUESTIONS| && FreshButtons(buttons, TRIVIA_QUESTIONS[i].options)
    ensures exists j :: 0 <= j < |buttons| && buttons[j].text == TRIVIA_QUESTIONS[i].answer
  {
    AnswersAreOptions();
    assert TRIVIA_QUESTIONS[i] in TRIVIA_QUESTIONS;
    var j :| 0 <= j < |TRIVIA_QUESTIONS[i].options| && TRIVIA_QUESTIONS[i].options[j] == TRIVIA_QUESTIONS[i].answer;
    assert buttons[j].text == TRIVIA_QUESTIONS[i].answer;
  }

  /** One fresh button per option, in the options' order: enabled and unmarked. */
  predicate FreshButtons(buttons: seq<OptionButton>, options: seq<string>)
  {
    && |buttons| == |options|
    && forall i :: 0 <= i < |buttons| ==> buttons[i] == OptionButton(options[i], false, false, false)
  }

  class Game {
    const triviaQuestions: seq<TriviaQuestion>
    var currentQuestionIndex: nat
    var score: nat
    var nextLabel: string
    var nextVisible: bool
    var buttons: seq<OptionButton>
    var prompt: Prompt

    /**
     * The label says "Play Again" exactly on the score screen, which comes
     * after the last question, so the index never passes the number of
     * questions. While a question is shown its buttons are all enabled until
     * one is picked and all disabled after, Next is visible exactly then, and
     * at most one point is scored per question.
     */
    ghost predicate Valid()
      reads this
    {
      && |triviaQuestions| > 0
      && currentQuestionIndex <= |triviaQuestions|
      && (nextLabel == NEXT_QUESTION || nextLabel == PLAY_AGAIN)
      && (nextLabel == PLAY_AGAIN <==> currentQuestionIndex == |triviaQuestions|)
      && (currentQuestionIndex < |triviaQuestions| ==>
            var q := triviaQuestions[currentQuestionIndex];
            && prompt == Asking(currentQuestionIndex)
            && |buttons| == |q.options|
            && (forall i :: 0 <= i < |buttons| ==> buttons[i].text == q.options[i] && buttons[i].disabled == nextVisible)
            && (!nextVisible ==> FreshButtons(buttons, q.options))
            && (nextVisible ==> forall i :: 0 <= i < |buttons| && buttons[i].text == q.answer ==> buttons[i].correct)
            && score <= currentQuestionIndex + (if nextVisible then 1 else 0))
      && (currentQuestionIndex == |triviaQuestions| ==>
            && buttons == [] && nextVisible
            && prompt == Scored(score, |triviaQuestions|)
            && score <= |triviaQuestions|)
    }

    /** Script load: `startGame()`. */
    constructor (bank: seq<TriviaQuestion>)
      requires |bank| > 0
      ensures Valid() && triviaQuestions == bank
      ensures currentQuestionIndex == 0 && score == 0 && nextLabel == NEXT_QUESTION
      ensures prompt == Asking(0) && FreshButtons(buttons, bank[0].options) && !nextVisible
    {
      triviaQuestions := bank;
      new;
      StartGame();
    }

    /** `startGame`: index and score back to 0, label "Next Question", first question shown. */
    method StartGame()
      requires |triviaQuestions| > 0
      modifies this
      ensures Valid()
      ensures currentQuestionIndex == 0 && score == 0 && nextLabel == NEXT_QUESTION
      ensures prompt == Asking(0) && FreshButtons(buttons, triviaQuestions[0].options) && !nextVisible
    {
      currentQuestionIndex := 0;
      score := 0;
      nextLabel := NEXT_QUESTION;
      ShowQuestion();
    }

    /** `showQuestion`: clears the old buttons, then one fresh button per option of the current question. */
    method ShowQuestion()
      requires currentQuestionIndex < |triviaQuestions|
      modifies this`buttons, this`nextVisible, this`prompt
      ensures prompt == Asking(currentQuestionIndex) && !nextVisible
      ensures FreshButtons(buttons, triviaQuestions[currentQuestionIndex].options)
    {
      ResetState();
      prompt := Asking(currentQuestionIndex);
      var options := triviaQuestions[currentQuestionIndex].options;
      for k := 0 to |options|
        modifies this`buttons
        invariant FreshButtons(buttons, options[..k])
      {
        buttons := buttons + [OptionButton(options[k], false, false, false)];
      }
      assert options[..|options|] == options;
    }

    /** `resetState`: hides Next and removes the first answer button until none is left. */
    method ResetState()
      modifies this`buttons, this`nextVisible
      ensures buttons == [] && !nextVisible
    {
      nextVisible := false;
      while buttons != []
        modifies this`buttons
        decreases |buttons|
      {
        buttons := buttons[1..];
      }
    }

    /**
     * `selectAnswer` for button `k`: a point iff its text is the right
     * answer; the clicked button is marked correct or incorrect, then every
     * button is disabled, those showing the right answer are marked
     * correct, and Next is shown.
     */
    method SelectAnswer(k: nat)
      requires currentQuestionIndex < |triviaQuestions| && k < |buttons|
      modifies this`buttons, this`score, this`nextVisible
      ensures var answer := triviaQuestions[currentQuestionIndex].answer;
        score == old(score) + (if old(buttons[k].text) == answer then 1 else 0)
      ensures |buttons| == |old(buttons)| && nextVisible
      ensures forall i :: 0 <= i < |buttons| ==>
        var answer := triviaQuestions[currentQuestionIndex].answer;
        && buttons[i].text == old(buttons[i].text)
        && buttons[i].disabled
        && buttons[i].correct == (old(buttons[i].correct) || old(buttons[i].text) == answer)
        && buttons[i].incorrect == (old(buttons[i].incorrect) || (i == k && old(buttons[i].text) != answer))
    {
      var selected := buttons[k].text;
      var correct := triviaQuestions[currentQuestionIndex].answer;
      if selected == correct {
        buttons := buttons[k := buttons[k].(correct := true)];
        score := score + 1;
      } else {
        buttons := buttons[k := buttons[k].(incorrect := true)];
      }
      ghost var marked := buttons;
      for j := 0 to |buttons|
        modifies this`buttons
        invariant |buttons| == |marked|
        invariant forall i :: 0 <= i < j ==>
          buttons[i] == marked[i].(disabled := true, correct := marked[i].correct || marked[i].text == correct)
        invariant forall i :: j <= i < |buttons| ==> buttons[i] == marked[i]
      {
        var b := buttons[j].(disabled := true);
        if b.text == correct {
          b := b.(correct := true);
        }
        buttons := buttons[j := b];
      }
      nextVisible := true;
    }

    /** A click on answer button `k`; a disabled button does not react. */
    method ClickAnswer(k: nat)
      requires Valid() && k < |buttons|
      modifies this`buttons, this`score, this`nextVisible
      ensures Valid()
      ensures old(buttons[k].disabled) ==> unchanged(this)
      ensures !old(buttons[k].disabled) ==>
        && currentQuestionIndex < |triviaQuestions| && !old(nextVisible) && nextVisible
        && score == old(score) + (if old(buttons[k].text) == triviaQuestions[currentQuestionIndex].answer then 1 else 0)
        && |buttons| == |old(buttons)|
        && forall i :: 0 <= i < |buttons| ==>
             var answer := triviaQuestions[currentQuestionIndex].answer;
             buttons[i] == OptionButton(old(buttons[i].text), true,
                                        old(buttons[i].text) == answer,
                                        i == k && old(buttons[i].text) != answer)
    {
      if !buttons[k].disabled {
        SelectAnswer(k);
      }
    }

    /** `showScore`: clears the buttons, reports the score out of the number of questions, label "Play Again". */
    method ShowScore()
      modifies this`buttons, this`nextVisible, this`prompt, this`nextLabel
      ensures buttons == [] && nextVisible
      ensures prompt == Scored(score, |triviaQuestions|) && nextLabel == PLAY_AGAIN
    {
      ResetState();
      prompt := Scored(score, |triviaQuestions|);
      nextLabel := PLAY_AGAIN;
      nextVisible := true;
    }

    /** `handleNextButton`: the index advances, then the next question or the score screen. */
    method HandleNextButton()
      requires Valid() && currentQuestionIndex < |triviaQuestions| && nextVisible
      modifies this
      ensures Valid()
      ensures currentQuestionIndex == old(currentQuestionIndex) + 1 && score == old(score)
      ensures currentQuestionIndex < |triviaQuestions| ==>
        && prompt == Asking(currentQuestionIndex) && !nextVisible
        && FreshButtons(buttons, triviaQuestions[currentQuestionIndex].options)
      ensures currentQuestionIndex == |triviaQuestions| ==>
        && prompt == Scored(score, |triviaQuestions|) && nextLabel == PLAY_AGAIN
        && buttons == [] && nextVisible
    {
      currentQuestionIndex := currentQuestionIndex + 1;
      if currentQuestionIndex < |triviaQuestions| {
        ShowQuestion();
      } else {
        ShowScore();
      }
    }

    /**
     * A click on Next, which only reacts while it is shown: with the label
     * "Play Again" a new game starts, otherwise the game advances.
     */
    method ClickNext()
      requires Valid()
      modifies this
      ensures Valid()
      ensures !old(nextVisible) ==> unchanged(this)
      ensures old(nextVisible) && old(nextLabel) == PLAY_AGAIN ==>
        currentQuestionIndex == 0 && score == 0 && nextLabel == NEXT_QUESTION
      ensures old(nextVisible) && old(nextLabel) != PLAY_AGAIN ==>
        currentQuestionIndex == old(currentQuestionIndex) + 1 && score == old(score)
      ensures old(nextVisible) && currentQuestionIndex < |triviaQuestions| ==>
        && prompt == Asking(currentQuestionIndex) && !nextVisible
        && FreshButtons(buttons, triviaQuestions[currentQuestionIndex].options)
      ensures old(nextVisible) && currentQuestionIndex == |triviaQuestions| ==>
        && prompt == Scored(score, |triviaQuestions|) && nextLabel == PLAY_AGAIN
        && buttons == [] && nextVisible
    {
      if !nextVisible {
        return;
      }
      if nextLabel == PLAY_AGAIN {
        StartGame();
      } else {
        HandleNextButton();
      }
    }
  }
}
