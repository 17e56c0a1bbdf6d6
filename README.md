# Boston sports mini-games, modelled in Dafny

This project models the game logic of three browser mini-games about Boston
sports teams and proves properties of that logic.

- **The flexbox ordering game** (`final_project_flexbox.js`) shows the four teams in a random order. It picks a
  random sorting mode: most championships, oldest first, or most social followers. The player drags the cards
  into order and presses Check. Reset reshuffles the cards and, 70% of the time, draws a new mode.
- **The trivia quiz** (`trivia.js`) asks four questions, each with four answer buttons. It shows
  "Correct!"/"Incorrect!", then a Next button, then a final `score / total` screen with a restart button.
- **The trivia game** (`games.js`) asks six questions. A single Next button is labelled "Next Question" until the
  score screen, where it becomes "Play Again".

## Files

- `optional.dfy`: the `Option` datatype.
- `teams.dfy` (module `Teams`)
  - The `TEAMS` data and the three `MODES`, with their comparators.
  - `Array.prototype.sort` as a stable insertion sort `SortBy`, proved to sort and to permute.
  - The expected order the Check button compares against.
  - The lemma that, for the founded and followers modes, the check passes exactly when the row is sorted.
- `card_row.dfy` (module `CardRow`)
  - `shuffleArray` as an in-place Fisher–Yates loop over an `array`.
  - `arraysEqual`.
  - `getDragAfterElement` as a loop proved against a reference definition.
  - Moving a card within the row: remove it, then insert it at the end or in front of a target card.
- `flexbox_game.dfy` (module `FlexboxGame`): the game state as a class. Its methods are the DOM event handlers:
  start-up, `renderCards`, `dragstart`, `dragend`, `dragover`, Check and Reset.
- `trivia.dfy` (module `Trivia`): class `Quiz`, the quiz of `trivia.js`.
- `games.dfy` (module `GamesTrivia`): class `Game`, the game of `games.js`.

### How the model represents the page and the browser

- The row of cards in the page is the sequence of team ids on the cards. Ids are distinct, so an id identifies
  its card.
- Which cards carry the `dragging` class is a set of ids. It is kept separate from `draggingEl`: `dragover` finds
  the card by its class, while `dragend` uses the variable.
- Each card's horizontal midpoint (`box.left + box.width / 2`) is a real number supplied with the `dragover` event.
- `Math.random()` is replaced by the values it leads to:
  - the shuffle takes the index `j` drawn at each step (`ValidPicks`);
  - Reset takes `Some(index)` when its first draw is below 0.7, and `None` otherwise.
- A disabled or hidden button receives no clicks in a browser. `ClickAnswer` and `ClickNext` model that: on such
  a button they change nothing (`unchanged(this)`).
- In `trivia.js` nothing hides the Next button after the last answer: `showFinalScreen` hides only the question
  box. The model takes the script at face value. Next stays shown on the final screen, and a click there runs the
  handler again: the index passes the number of questions and the final screen is shown again with the same score.

### The data has a tie

The four teams are not all different on every attribute: the Patriots and the Bruins both have 6
championships.

- For the founded and followers modes, the stable sort's result has no ties. So any arrangement the comparator
  accepts as sorted passes the check, and no other does (`Teams.CheckPassesIffSorted`).
- For the championships mode, only the order a stable sort produces passes: Patriots before Bruins, as listed in
  `TEAMS`. Swapping the two tied teams gives a row that is equally sorted, and the check rejects it
  (`Teams.ChampionshipsTieRejected`).

## Model

| member | source | states |
|---|---|---|
| Teams.Compare | final_project_flexbox.js:13-17 | each mode's comparator is `<= 0` exactly when the mode's stated order (more championships, earlier founding, more followers) lets the first team stand left of the second |
| Teams.ComparatorInducesStatedOrder | final_project_flexbox.js:13-17 | each comparator is `< 0` exactly when the first team strictly precedes the second in the stated order, and it is antisymmetric |
| Teams.Insert | final_project_flexbox.js:129 | one step of the stable sort adds exactly one element (sortedness and contents in `InsertSorted` and `InsertPermutes`) |
| Teams.SortBy | final_project_flexbox.js:129 | the stable sort keeps the length (sortedness and contents in `SortBySortsAndPermutes`) |
| Teams.ExpectedIds | final_project_flexbox.js:129 | the order the check expects has one id per team |
| Teams.ExpectedIdsArrangeTeams | final_project_flexbox.js:129 | the order the check expects is a rearrangement of the teams' ids |
| Teams.SortBySortsAndPermutes | final_project_flexbox.js:129 | `[...TEAMS].sort(mode.comparator)` modelled as a stable insertion sort yields a sequence sorted by the comparator that is a permutation of its input |
| Teams.InsertPermutes | final_project_flexbox.js:129 | one insertion step adds exactly the inserted team to the multiset |
| Teams.InsertSorted | final_project_flexbox.js:129 | one insertion step into a sorted sequence keeps it sorted |
| Teams.ExpectedTeams | final_project_flexbox.js:6-17 | the teams sorted under each mode, concretely: Celtics, Red Sox, Patriots, Bruins / Red Sox, Bruins, Celtics, Patriots / Patriots, Celtics, Red Sox, Bruins |
| Teams.ExpectedOrders | final_project_flexbox.js:129 | the id list the check compares against, for each of the three modes |
| Teams.IdsPermute | final_project_flexbox.js:128-129 | mapping teams to ids maps a permutation of teams to a permutation of ids |
| Teams.SortedUnique | final_project_flexbox.js:129 | two sorted permutations of the same teams are equal when the comparator never ties in one of them |
| Teams.TeamIdsOnce | final_project_flexbox.js:6-11 | each id occurs at most once among the teams, so a card id names a single team |
| Teams.SameIdsSameTeams | final_project_flexbox.js:128-132 | two arrangements of the teams with the same ids are the same arrangement |
| Teams.ExpectedHasNoTies | final_project_flexbox.js:7-10 | under the founded and followers comparators no two teams tie |
| Teams.CheckPassesIffSorted | final_project_flexbox.js:127-139 | for the founded and followers modes, the check passes on an arrangement of the teams iff that arrangement is sorted by the mode's comparator |
| Teams.TieSwapped | final_project_flexbox.js:7-10 | Celtics, Red Sox, Bruins, Patriots is an arrangement of the teams sorted by the championships comparator |
| Teams.ChampionshipsTieRejected | final_project_flexbox.js:9-10 | for championships, the check rejects that sorted arrangement |
| CardRow.Passes | final_project_flexbox.js:152-155 | the swap passes from position `i` down to 1 keep the length (contents in `PassesPermute`) |
| CardRow.PassesPermute | final_project_flexbox.js:152-155 | the swap passes keep the multiset of elements |
| CardRow.Shuffled | final_project_flexbox.js:150-157 | the shuffled arrangement has the input's length |
| CardRow.ShuffledPermutes | final_project_flexbox.js:150-157 | the Fisher–Yates result for any valid draws is a permutation of the input, of the same length |
| CardRow.Shuffle | final_project_flexbox.js:150-157 | the in-place loop over a copy returns the Fisher–Yates result for the given draws and leaves the input's multiset unchanged |
| CardRow.ArraysEqual | final_project_flexbox.js:158-162 | true iff the lengths agree and every position holds equal elements, i.e. iff the sequences are equal |
| CardRow.NearestRightIsDragAfter | final_project_flexbox.js:115-124 | the reference choice is the card whose midpoint lies right of the pointer and nearest to it, the first such on ties, or none when no midpoint lies right of the pointer |
| CardRow.DragAfterUnique | final_project_flexbox.js:115-124 | at most one answer meets that description |
| CardRow.GetDragAfterElement | final_project_flexbox.js:115-124 | the loop keeping the largest negative offset returns exactly that card |
| CardRow.Without | final_project_flexbox.js:111-112 | removing the dragged card leaves every other card and no copy of it |
| CardRow.WithoutCounts | final_project_flexbox.js:111-112 | removal zeroes the dragged card's count and leaves the others' counts |
| CardRow.IndexOf | final_project_flexbox.js:112 | the position of the first occurrence of the target card |
| CardRow.Reinsert | final_project_flexbox.js:111-112 | after `appendChild` or `insertBefore` the dragged card is in the row, which has one place more than the row without it (placement in `ReinsertPlaces`, the other cards in `ReinsertKeepsOthers`) |
| CardRow.ReinsertKeepsOthers | final_project_flexbox.js:111-112 | moving a card leaves the other cards in their relative order |
| CardRow.ReinsertPermutes | final_project_flexbox.js:111-112 | moving a card that occurs once keeps the row a permutation of itself |
| CardRow.ReinsertPlaces | final_project_flexbox.js:111-112 | `appendChild` puts the card last; `insertBefore` puts it immediately before the target |
| FlexboxGame.FirstMarked | final_project_flexbox.js:109-110 | the first card in row order carrying the dragging class, or none iff no card in the row carries it |
| FlexboxGame.Candidates | final_project_flexbox.js:116 | every candidate is a card of the row without the dragging class, paired with its own midpoint, and every such card is a candidate |
| FlexboxGame.UnmarkedFrom | final_project_flexbox.js:116 | the positions of the cards without the dragging class, strictly increasing, all of them |
| FlexboxGame.CandidatesInRowOrder | final_project_flexbox.js:116 | the candidates are exactly the cards at those positions, in row order, each with its own midpoint |
| FlexboxGame.NoTargetIffNoneRight | final_project_flexbox.js:115-124 | `getDragAfterElement` returns null exactly when no card without the dragging class has its midpoint right of the pointer |
| FlexboxGame.DropTarget | final_project_flexbox.js:108 | the drop target is a card of the row without the dragging class, or none exactly when no such card lies right of the pointer |
| FlexboxGame.FindDropTarget | final_project_flexbox.js:108 | collecting the candidates and running the `getDragAfterElement` loop yields that drop target |
| FlexboxGame.MovedRow | final_project_flexbox.js:109-112 | the row after the move keeps every card and its multiset, and the cards other than the moved one keep their order |
| FlexboxGame.Game.constructor | final_project_flexbox.js:33-44 | start-up: the drawn mode, the teams shuffled by the draws, cards rendered in that order, nothing dragging |
| FlexboxGame.Game.RenderCards | final_project_flexbox.js:47-87 | the row becomes the ids of `currentOrder`, with no card dragging |
| FlexboxGame.Game.DragStart | final_project_flexbox.js:92-98 | the card becomes `draggingEl` and gains the dragging class |
| FlexboxGame.Game.DragEnd | final_project_flexbox.js:99-102 | the dragging class is removed from `draggingEl`, if any, and `draggingEl` is cleared |
| FlexboxGame.Game.DragOver | final_project_flexbox.js:106-113 | the target is the drop target above (none exactly when no non-dragging card lies right of the pointer); the first dragging card moves to the end or in front of it; with no dragging card the row is unchanged; the row stays a permutation of the teams' ids |
| FlexboxGame.Game.MoveDragging | final_project_flexbox.js:109-112 | the first dragging card, if any, goes to the end or in front of the target, the other cards keep their order and the row its multiset |
| FlexboxGame.Game.Check | final_project_flexbox.js:127-139 | passes iff the row's ids equal the teams sorted by the mode's comparator; the result line shows "Perfect" or the expected order |
| FlexboxGame.Game.Reset | final_project_flexbox.js:142-147 | a new mode exactly when one was drawn, a fresh shuffle rendered, the result line cleared |
| Trivia.CorrectIsAnAnswer | trivia.js:7-28 | a fact about the question data: every question's correct answer is among its answers |
| Trivia.CorrectAnswerOffered | trivia.js:48-64 | whichever question is loaded, one of its buttons offers the correct answer, so every point can be won |
| Trivia.Quiz.constructor | trivia.js:123 | the first question is shown with enabled buttons, score 0, no message, Next hidden |
| Trivia.Quiz.LoadQuestion | trivia.js:48-64 | one enabled button per answer, in order; message cleared; Next hidden |
| Trivia.Quiz.CheckAnswer | trivia.js:69-86 | one point iff the selected answer is correct, the matching message, every button disabled, Next shown |
| Trivia.Quiz.ClickAnswer | trivia.js:61 | a click on an enabled button checks it: one point iff its answer is correct, the Correct or Incorrect message, every button disabled, Next shown; at most one point per question; a disabled button changes nothing |
| Trivia.Quiz.ClickNext | trivia.js:91-98 | while Next is shown the index advances and the score stays; the next question is loaded with enabled buttons, no message and Next hidden while questions remain, the final score text untouched; otherwise the final screen shows `score / total` and the buttons and message stay as they were |
| Trivia.Quiz.ShowFinalScreen | trivia.js:103-107 | the final screen shows `score / questions.length` |
| Trivia.Quiz.Restart | trivia.js:112-118 | back to the first question, score 0, quiz box shown, the final score text untouched |
| GamesTrivia.AnswersAreOptions | games.js:2-33 | a fact about the question data: every question's answer is one of its options |
| GamesTrivia.AnswerOffered | games.js:55-70 | whichever question is shown, one of its buttons offers the answer, so every point can be won |
| GamesTrivia.Game.constructor | games.js:134-135 | the game starts at question 0 with score 0 |
| GamesTrivia.Game.StartGame | games.js:47-52 | index and score reset, label "Next Question", the first question shown with fresh buttons |
| GamesTrivia.Game.ShowQuestion | games.js:55-70 | the old buttons are gone; one fresh button per option of the current question; Next hidden |
| GamesTrivia.Game.ResetState | games.js:73-79 | the loop removes every answer button; Next hidden |
| GamesTrivia.Game.SelectAnswer | games.js:82-103 | one point iff the clicked text is the answer; the clicked button is marked correct or incorrect; all buttons are disabled; every button showing the answer is marked correct; Next shown |
| GamesTrivia.Game.ClickAnswer | games.js:68 | a click on an enabled button selects it: one point iff its text is the answer; afterwards every button is disabled, marked correct iff it shows the answer, and marked incorrect iff it is the clicked button with a wrong answer; Next shown; a disabled button changes nothing |
| GamesTrivia.Game.ShowScore | games.js:106-112 | the buttons are cleared, the score out of the number of questions is shown, label "Play Again", Next visible |
| GamesTrivia.Game.HandleNextButton | games.js:115-123 | the index advances and the score stays; the next question with fresh buttons and Next hidden while questions remain, otherwise the score screen with no buttons, "Play Again" and Next shown |
| GamesTrivia.Game.ClickNext | games.js:126-131 | "Play Again" restarts the game; any other label advances; the question then shown has fresh enabled buttons and Next hidden, and the score screen has "Play Again" with Next shown; the label is "Play Again" exactly on the score screen; a hidden Next changes nothing |

## Left out

- DOM rendering, CSS classes other than `dragging`/`correct`/`incorrect`, and colours are not modelled. Neither
  are the logo image and its placeholder fallback (`final_project_flexbox.js:55-74`), `dataTransfer`, or
  `preventDefault`.
- Text formatting is not modelled: the mode labels, the question texts, the "You scored …" sentence and the
  emoji messages become datatypes (`Mode.name`, `Prompt.Scored`, `Message`, `Verdict`).
- The early return when a required DOM element is missing (`final_project_flexbox.js:27-30`) is not modelled:
  the model assumes the page is complete.
- `console.log` / `console.warn` / `console.error` calls are not modelled.
- Page layout is not modelled: card midpoints are inputs to `DragOver`, and how the browser computes them is
  not modelled.
- `Math.random()` is not modelled: its effect is supplied as draws (see above). Whether the draws are
  uniformly distributed is not stated.
- `Math.floor(Math.random()*n)` and numbers generally: integers are unbounded, and JavaScript's 64-bit
  floating point is not modelled. The team attributes, indices and scores are small integers. The card midpoints
  and the offsets `x - mid` (`final_project_flexbox.js:119-121`) are exact reals in the model. Floating-point
  rounding in the midpoint and in the offset comparisons is not modelled.
- Cards are identified by their team id rather than by DOM node identity.
- FlexboxGame.Game.Reset: keeps `draggingEl` as it was, the way the source leaves the variable. In a browser,
  a drag in progress during a reset would refer to a detached node; the model does not capture that.
- Only sort stability, which ECMAScript 2019 requires, is modelled. Which other algorithm an engine uses is
  not.
- Whether `trivia.js`'s Next button sits inside the question box depends on the page's markup, which is not
  part of this model. If it does, Next is hidden on the final screen and the extra clicks modelled above cannot
  happen.
- `Trivia.Quiz.Valid` and `GamesTrivia.Game.Valid` express the per-question scoring bound. Event sequences
  are not modelled as traces.
