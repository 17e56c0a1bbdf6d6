/**
 * The flexbox ordering game's state and event handlers: start-up, drag
 * start, drag over the row, drag end, the check button and the reset
 * button. The row of cards in the page is the sequence of team ids `cards`;
 * which cards carry the `dragging` class is the set `marked`.
 */
module FlexboxGame {
  import opened Optional
  import opened Teams
  import opened CardRow

  /** What the result line says after a check. */
  datatype Verdict = Perfect | NotQuite(expected: seq<string>)

  /** The first card in row order that carries the dragging class (`querySelector('.dragging')`). */
  function FirstMarked(cards: seq<string>, marked: set<string>): (r: Option<string>)
    ensures r.Some? ==> r.value in cards && r.value in marked
    ensures r.Some? ==> forall j :: 0 <= j < IndexOf(cards, r.value) ==> cards[j] !in marked
    ensures r.None? <==> forall c :: c in cards ==> c !in marked
  {
    if cards == [] then None
    else if cards[0] in marked then Some(cards[0])
    else
      var r := FirstMarked(cards[1..], marked);
      assert forall c :: c in cards ==> c == cards[0] || c in cards[1..];
      r
  }

  /**
   * The cards without the dragging class, in row order, each with its own
   * midpoint (`.draggable:not(.dragging)`): every candidate is such a card of
   * the row, and every such card is a candidate (the order and the pairing
   * with midpoints are `CandidatesInRowOrder`).
   */
  function Candidates(cards: seq<string>, mids: seq<real>, marked: set<string>): (c: seq<Placed>)
    requires |mids| == |cards|
    ensures forall j :: 0 <= j < |c| ==> c[j].id in cards && c[j].id !in marked
    ensures forall i :: 0 <= i < |cards| && cards[i] !in marked ==> Placed(cards[i], mids[i]) in c
  {
    if cards == [] then []
    else
      var head := if cards[0] in marked then [] else [Placed(cards[0], mids[0])];
      var rest := Candidates(cards[1..], mids[1..], marked);
      assert forall i :: 1 <= i < |cards| ==> cards[1..][i - 1] == cards[i] && mids[1..][i - 1] == mids[i];
      head + rest
  }

  /** The positions from `from` on whose cards carry no dragging class, in increasing order. */
  function UnmarkedFrom(cards: seq<string>, marked: set<string>, from: nat): (ps: seq<nat>)
    requires from <= |cards|
    ensures forall k :: 0 <= k < |ps| ==> from <= ps[k] < |cards| && cards[ps[k]] !in marked
    ensures forall k, l :: 0 <= k < l < |ps| ==> ps[k] < ps[l]
    ensures forall i :: from <= i < |cards| && cards[i] !in marked ==> i in ps
    decreases |cards| - from
  {
    if from == |cards| then []
    else (if cards[from] in marked then [] else [from]) + UnmarkedFrom(cards, marked, from + 1)
  }

  /** The cards at positions `ps`, each with its own midpoint. */
  function PlacedAt(cards: seq<string>, mids: seq<real>, ps: seq<nat>): (c: seq<Placed>)
    requires |mids| == |cards| && forall k :: 0 <= k < |ps| ==> ps[k] < |cards|
    ensures |c| == |ps|
  {
    seq(|ps|, k requires 0 <= k < |ps| => Placed(cards[ps[k]], mids[ps[k]]))
  }

  /** The candidates are exactly the unmarked cards taken in increasing row position. */
  lemma {:induction false} CandidatesInRowOrder(cards: seq<string>, mids: seq<real>, marked: set<string>, from: nat)
    requires |mids| == |cards| && from <= |cards|
    ensures Candidates(cards[from..], mids[from..], marked)
         == PlacedAt(cards, mids, UnmarkedFrom(cards, marked, from))
    decreases |cards| - from
  {
    if from < |cards| {
      CandidatesInRowOrder(cards, mids, marked, from + 1);
      var hp := if cards[from] in marked then [] else [from];
      var rest := UnmarkedFrom(cards, marked, from + 1);
      CandidatesStep(cards, mids, marked, from);
      assert UnmarkedFrom(cards, marked, from) == hp + rest;
      PlacedAtAppend(cards, mids, hp, rest);
      assert PlacedAt(cards, mids, hp) == (if cards[from] in marked then [] else [Placed(cards[from], mids[from])]);
    }
  }

  /** One unfolding of `Candidates` on the suffix starting at `from`. */
  lemma CandidatesStep(cards: seq<string>, mids: seq<real>, marked: set<string>, from: nat)
    requires |mids| == |cards| && from < |cards|
    ensures Candidates(cards[from..], mids[from..], marked)
         == (if cards[from] in marked then [] else [Placed(cards[from], mids[from])])
            + Candidates(cards[from + 1..], mids[from + 1..], marked)
  {
    assert cards[from..][1..] == cards[from + 1..];
    assert mids[from..][1..] == mids[from + 1..];
  }

  lemma PlacedAtAppend(cards: seq<string>, mids: seq<real>, ps: seq<nat>, qs: seq<nat>)
    requires |mids| == |cards|
    requires forall k :: 0 <= k < |ps| ==> ps[k] < |cards|
    requires forall k :: 0 <= k < |qs| ==> qs[k] < |cards|
    ensures PlacedAt(cards, mids, ps + qs) == PlacedAt(cards, mids, ps) + PlacedAt(cards, mids, qs)
  {
  }

  /** No card lies right of the pointer exactly when `getDragAfterElement` finds no target among the candidates. */
  lemma NoTargetIffNoneRight(cards: seq<string>, mids: seq<real>, marked: set<string>, x: real)
    requires |mids| == |cards|
    ensures NearestRight(Candidates(cards, mids, marked), x).None?
        <==> forall i :: 0 <= i < |cards| && cards[i] !in marked ==> mids[i] <= x
  {
    var cands := Candidates(cards, mids, marked);
    NearestRightIsDragAfter(cands, x);
    var r := NearestRight(cands, x);
    if r.Some? {
      CandidatesInRowOrder(cards, mids, marked, 0);
      assert cards[0..] == cards && mids[0..] == mids;
      var ps := UnmarkedFrom(cards, marked, 0);
      var i := ps[r.value];
      assert cands[r.value] == Placed(cards[i], mids[i]);
      assert !(mids[i] <= x);
    } else {
      forall i | 0 <= i < |cards| && cards[i] !in marked
        ensures mids[i] <= x
      {
        assert Placed(cards[i], mids[i]) in cands;
      }
    }
  }

  /**
   * The card `getDragAfterElement` returns for the row, the dragging marks,
   * the midpoints and the pointer at `x`: an unmarked card of the row, or
   * none exactly when no unmarked card's midpoint lies right of `x`.
   */
  function DropTarget(cards: seq<string>, mids: seq<real>, marked: set<string>, x: real): (t: Option<string>)
    requires |mids| == |cards|
    ensures t.Some? ==> t.value in cards && t.value !in marked
    ensures t.None? <==> forall i :: 0 <= i < |cards| && cards[i] !in marked ==> mids[i] <= x
  {
    var cands := Candidates(cards, mids, marked);
    NoTargetIffNoneRight(cards, mids, marked, x);
    match NearestRight(cands, x)
    case None => None
    case Some(k) => Some(cands[k].id)
  }

  /** Lines 108 and 116 of the handler: the candidates are collected and scanned by `GetDragAfterElement`. */
  method FindDropTarget(cards: seq<string>, mids: seq<real>, marked: set<string>, x: real) returns (afterEl: Option<string>)
    requires |mids| == |cards|
    ensures afterEl == DropTarget(cards, mids, marked, x)
  {
    var cands := Candidates(cards, mids, marked);
    var closest := GetDragAfterElement(cands, x);
    afterEl := if closest.None? then None else Some(cands[closest.value].id);
  }

  /**
   * The row after lines 109-112: the first card with the dragging class goes
   * to the end or in front of `afterEl`, or the row stays as it is. Every
   * card stays in the row, the row keeps its multiset, and the cards other
   * than the moved one keep their order.
   */
  function MovedRow(cards: seq<string>, marked: set<string>, afterEl: Option<string>): (r: seq<string>)
    requires multiset(cards) == multiset(Ids(TEAMS))
    requires afterEl.Some? ==> afterEl.value in cards && afterEl.value !in marked
    ensures multiset(r) == multiset(cards)
    ensures forall c :: c in cards ==> c in r
    ensures FirstMarked(cards, marked).Some? ==>
      Without(r, FirstMarked(cards, marked).value) == Without(cards, FirstMarked(cards, marked).value)
  {
    match FirstMarked(cards, marked)
    case None => cards
    case Some(d) =>
      var r := Reinsert(cards, d, afterEl);
      assert multiset(r) == multiset(cards) && (forall c :: c in cards ==> c in r) && Without(r, d) == Without(cards, d) by {
        TeamIdsOnce();
        assert d in multiset(cards);
        ReinsertPermutes(cards, d, afterEl);
        ReinsertKeepsOthers(cards, d, afterEl);
        forall c | c in cards
          ensures c in r
        {
          assert c in multiset(cards);
        }
      }
      r
  }

  class Game {
    var mode: Mode
    var currentOrder: seq<Team>
    var cards: seq<string>
    var draggingEl: Option<string>
    var marked: set<string>
    var result: Option<Verdict>

    /** The row always holds each team's card once, and only cards in the row carry the dragging class. */
    ghost predicate Valid()
      reads this
    {
      && mode in MODES
      && multiset(currentOrder) == multiset(TEAMS)
      && multiset(cards) == multiset(Ids(TEAMS))
      && (forall c :: c in marked ==> c in cards)
    }

    /** Start-up: a random mode, a shuffled copy of the teams, rendered as cards. */
    constructor (modePick: nat, picks: seq<nat>)
      requires modePick < |MODES|
      requires ValidPicks(|TEAMS|, picks)
      ensures Valid()
      ensures mode == MODES[modePick]
      ensures currentOrder == Shuffled(TEAMS, picks) && cards == Ids(currentOrder)
      ensures draggingEl == None && marked == {} && result == None
    {
      mode := MODES[modePick];
      var order := Shuffle(TEAMS, picks);
      currentOrder := order;
      cards := Ids(order);
      marked := {};
      draggingEl := None;
      result := None;
      IdsPermute(order, TEAMS);
    }

    /** `renderCards`: the row is rebuilt from `currentOrder`; new cards carry no dragging class. */
    method RenderCards()
      requires Valid()
      modifies this`cards, this`marked
      ensures Valid()
      ensures cards == Ids(currentOrder) && marked == {}
    {
      cards := Ids(currentOrder);
      marked := {};
      IdsPermute(currentOrder, TEAMS);
    }

    /** `dragstart` on a card: it becomes `draggingEl` and gains the dragging class. */
    method DragStart(card: string)
      requires Valid() && card in cards
      modifies this`draggingEl, this`marked
      ensures Valid()
      ensures draggingEl == Some(card) && marked == old(marked) + {card}
    {
      draggingEl := Some(card);
      marked := marked + {card};
    }

    /** `dragend`: the dragging class leaves `draggingEl`, if any, which is then cleared. */
    method DragEnd()
      requires Valid()
      modifies this`draggingEl, this`marked
      ensures Valid()
      ensures draggingEl == None
      ensures marked == if old(draggingEl).Some? then old(marked) - {old(draggingEl).value} else old(marked)
    {
      if draggingEl.Some? {
        marked := marked - {draggingEl.value};
      }
      draggingEl := None;
    }

    /**
     * `dragover` with the pointer at `x`, `mids` giving the midpoint of each
     * card in row order: the first dragging card moves to the end of the row
     * or in front of the chosen card; with no dragging card nothing changes.
     */
    method DragOver(x: real, mids: seq<real>) returns (afterEl: Option<string>)
      requires Valid() && |mids| == |cards|
      modifies this`cards
      ensures Valid()
      ensures afterEl == DropTarget(old(cards), mids, marked, x)
      ensures afterEl.Some? ==> afterEl.value in old(cards) && afterEl.value !in marked
      ensures afterEl.None? <==> forall i :: 0 <= i < |old(cards)| && old(cards)[i] !in marked ==> mids[i] <= x
      ensures cards == match FirstMarked(old(cards), marked)
        case None => old(cards)
        case Some(d) => Reinsert(old(cards), d, afterEl)
      ensures multiset(cards) == multiset(old(cards))
      ensures FirstMarked(old(cards), marked).Some? ==>
        var d := FirstMarked(old(cards), marked).value;
        Without(cards, d) == Without(old(cards), d)
    {
      afterEl := FindDropTarget(cards, mids, marked, x);
      MoveDragging(afterEl);
    }

    /**
     * Lines 109-112 of the handler: the first card with the dragging class
     * goes to the end of the row or in front of `afterEl`; with no such card
     * nothing changes.
     */
    method MoveDragging(afterEl: Option<string>)
      requires Valid()
      requires afterEl.Some? ==> afterEl.value in cards && afterEl.value !in marked
      modifies this`cards
      ensures Valid()
      ensures cards == match FirstMarked(old(cards), marked)
        case None => old(cards)
        case Some(d) => Reinsert(old(cards), d, afterEl)
      ensures multiset(cards) == multiset(old(cards))
      ensures FirstMarked(old(cards), marked).Some? ==>
        var d := FirstMarked(old(cards), marked).value;
        Without(cards, d) == Without(old(cards), d)
    {
      cards := MovedRow(cards, marked, afterEl);
    }

    /** The check button: passes iff the row's ids equal the teams sorted by the mode's comparator. */
    method Check() returns (passed: bool)
      requires Valid()
      modifies this`result
      ensures Valid()
      ensures passed <==> cards == ExpectedIds(mode.key)
      ensures result == Some(if passed then Perfect else NotQuite(ExpectedIds(mode.key)))
    {
      var domOrder := cards;
      var correct := ExpectedIds(mode.key);
      passed := ArraysEqual(domOrder, correct);
      result := Some(if passed then Perfect else NotQuite(correct));
    }

    /**
     * The reset button: `modeChoice` is the index drawn for a new mode when
     * the first draw is below 0.7, and `None` when it is not and the mode stays; then a fresh shuffle is
     * rendered and the result line is cleared.
     */
    method Reset(modeChoice: Option<nat>, picks: seq<nat>)
      requires Valid()
      requires modeChoice.Some? ==> modeChoice.value < |MODES|
      requires ValidPicks(|TEAMS|, picks)
      modifies this
      ensures Valid()
      ensures mode == if modeChoice.Some? then MODES[modeChoice.value] else old(mode)
      ensures currentOrder == Shuffled(TEAMS, picks) && cards == Ids(currentOrder)
      ensures marked == {} && result == None && draggingEl == old(draggingEl)
    {
      if modeChoice.Some? {
        mode := MODES[modeChoice.value];
      }
      var order := Shuffle(TEAMS, picks);
      currentOrder := order;
      RenderCards();
      result := None;
    }
  }
}
