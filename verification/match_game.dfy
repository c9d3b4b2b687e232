/** The two-column matching game of script.js: the state held in the
    globals of script.js:9-17 and the transitions `initializeGame`
    (script.js:468-477, with the two shuffles of `renderCards`,
    script.js:320-339), `handleCardClick` (script.js:346-376) and
    `checkMatch` (script.js:382-432).

    Cards are values rather than DOM elements: the CSS classes `selected`
    and `matched` become the two selection slots and the set of matched
    ids. A `checkMatch` that a click schedules runs at once and as one
    step, so the 500/700/800 ms timers are not modelled. */
module MatchGame {
  import opened Wrappers
  import opened Lessons
  import opened Shuffle

  /** The column a card sits in. */
  datatype Side = English | Vietnamese

  /** A rendered card: the text it shows and the pair id in its `data-id`. */
  datatype Card = Card(text: string, id: string)

  /** The game globals: the current lesson (whose `vocab` is the global
      `vocabulary`), the two shuffled columns, the selected card of each
      column, the ids whose cards carry the `matched` class, and the three
      counters. */
  datatype Game = Game(
    lesson: Lesson,
    englishColumn: seq<Card>,
    vietnameseColumn: seq<Card>,
    selectedEnglish: Option<Card>,
    selectedVietnamese: Option<Card>,
    matched: set<string>,
    score: nat,
    attempts: nat,
    matchesFound: nat)

  /** A click on the card at `position` of the `side` column. */
  datatype CardClick = CardClick(side: Side, position: nat)

  /** What `handleCardClick` leaves behind, and whether it set the
      `checkMatch` timer. */
  datatype Clicked = Clicked(game: Game, checkScheduled: bool)

  /** What a check leaves behind, and whether it completed the lesson
      (the branch that calls `updateLessonPlayCount`). */
  datatype Checked = Checked(game: Game, completed: bool)

  /** The end of a sequence of clicks, and how many of them completed the
      lesson. */
  datatype Played = Played(game: Game, completions: nat)

  // ---------------------------------------------------------------------
  // Cards and columns
  // ---------------------------------------------------------------------

  /** The English card of each pair, in vocabulary order (script.js:327). */
  function EnglishCards(vocab: seq<Pair>): (cards: seq<Card>)
    ensures |cards| == |vocab|
    ensures forall k :: 0 <= k < |vocab| ==> cards[k] == Card(vocab[k].english, vocab[k].id)
  {
    seq(|vocab|, k requires 0 <= k < |vocab| => Card(vocab[k].english, vocab[k].id))
  }

  /** The Vietnamese card of each pair, in vocabulary order (script.js:328). */
  function VietnameseCards(vocab: seq<Pair>): (cards: seq<Card>)
    ensures |cards| == |vocab|
    ensures forall k :: 0 <= k < |vocab| ==> cards[k] == Card(vocab[k].vietnam, vocab[k].id)
  {
    seq(|vocab|, k requires 0 <= k < |vocab| => Card(vocab[k].vietnam, vocab[k].id))
  }

  function Column(g: Game, side: Side): seq<Card> {
    match side
    case English => g.englishColumn
    case Vietnamese => g.vietnameseColumn
  }

  function Selected(g: Game, side: Side): Option<Card> {
    match side
    case English => g.selectedEnglish
    case Vietnamese => g.selectedVietnamese
  }

  function Other(side: Side): Side {
    match side
    case English => Vietnamese
    case Vietnamese => English
  }

  /** The click hits a card that is on the board. */
  predicate OnBoard(g: Game, c: CardClick) {
    c.position < |Column(g, c.side)|
  }

  /** The lesson and both columns are the same: nothing re-rendered. */
  predicate SameBoard(g: Game, h: Game) {
    h.lesson == g.lesson && h.englishColumn == g.englishColumn && h.vietnameseColumn == g.vietnameseColumn
  }

  // ---------------------------------------------------------------------
  // Invariants
  // ---------------------------------------------------------------------

  /** A selected card is a card of the lesson that is not yet matched. */
  ghost predicate Selectable(g: Game, sel: Option<Card>) {
    sel.Some? ==> sel.value.id in Ids(g.lesson.vocab) && sel.value.id !in g.matched
  }

  /** What holds of the game globals between events: ids are distinct,
      each column is a rearrangement of the lesson's cards, the matched
      ids are ids of the lesson and there are `matchesFound` of them,
      `score` moves in lock-step with `matchesFound`, neither exceeds
      `attempts`, and only unmatched cards are selected. */
  ghost predicate Inv(g: Game) {
    && DistinctIds(g.lesson.vocab)
    && multiset(g.englishColumn) == multiset(EnglishCards(g.lesson.vocab))
    && multiset(g.vietnameseColumn) == multiset(VietnameseCards(g.lesson.vocab))
    && g.matched <= Ids(g.lesson.vocab)
    && |g.matched| == g.matchesFound
    && g.score == g.matchesFound <= g.attempts
    && Selectable(g, g.selectedEnglish)
    && Selectable(g, g.selectedVietnamese)
  }

  /** No check is pending: at most one column has a selection. */
  predicate AtRest(g: Game) {
    !(g.selectedEnglish.Some? && g.selectedVietnamese.Some?)
  }

  /** The lesson is done: every pair has been matched. */
  predicate Complete(g: Game) {
    g.matchesFound == |g.lesson.vocab|
  }

  // ---------------------------------------------------------------------
  // Transitions
  // ---------------------------------------------------------------------

  /** `initializeGame` (run by `startLesson` and by the reset button):
      zero the counters, clear both selections, and render freshly
      shuffled columns in which no card is matched. */
  function InitializeGame(lesson: Lesson, englishDraws: seq<nat>, vietnameseDraws: seq<nat>): (g: Game)
    requires ValidDraws(englishDraws, |lesson.vocab|) && ValidDraws(vietnameseDraws, |lesson.vocab|)
    ensures g.lesson == lesson
    ensures g.score == 0 && g.attempts == 0 && g.matchesFound == 0
    ensures g.selectedEnglish == None && g.selectedVietnamese == None && g.matched == {}
    ensures multiset(g.englishColumn) == multiset(EnglishCards(lesson.vocab))
    ensures multiset(g.vietnameseColumn) == multiset(VietnameseCards(lesson.vocab))
    ensures DistinctIds(lesson.vocab) ==> Inv(g) && AtRest(g)
  {
    var english := EnglishCards(lesson.vocab);
    var vietnamese := VietnameseCards(lesson.vocab);
    ShuffledPermutes(english, englishDraws);
    ShuffledPermutes(vietnamese, vietnameseDraws);
    Game(lesson, Shuffled(english, englishDraws), Shuffled(vietnamese, vietnameseDraws),
         None, None, {}, 0, 0, 0)
  }

  /** `handleCardClick`: a click on a matched card changes nothing;
      otherwise the card becomes its column's selection, replacing any
      earlier one there, and a check is scheduled exactly when both
      columns then hold a selection. */
  function HandleCardClick(g: Game, side: Side, position: nat): (r: Clicked)
    requires position < |Column(g, side)|
    ensures Column(g, side)[position].id in g.matched ==> r == Clicked(g, false)
    ensures Column(g, side)[position].id !in g.matched ==>
              && Selected(r.game, side) == Some(Column(g, side)[position])
              && Selected(r.game, Other(side)) == Selected(g, Other(side))
              && SameBoard(g, r.game) && r.game.matched == g.matched
              && r.game.score == g.score && r.game.attempts == g.attempts
              && r.game.matchesFound == g.matchesFound
              && (r.checkScheduled <==> r.game.selectedEnglish.Some? && r.game.selectedVietnamese.Some?)
  {
    var card := Column(g, side)[position];
    if card.id in g.matched then Clicked(g, false)
    else
      var h := match side
        case English => g.(selectedEnglish := Some(card))
        case Vietnamese => g.(selectedVietnamese := Some(card));
      Clicked(h, h.selectedEnglish.Some? && h.selectedVietnamese.Some?)
  }

  /** `checkMatch`: one more attempt; the pick is a match exactly when the
      two cards carry the same id (their texts play no part), and then
      `score` and `matchesFound` go up by one and the id is matched; the
      lesson completes when that match is the last one. Either way both
      selections end up cleared. */
  function CheckMatch(g: Game): (r: Checked)
    requires g.selectedEnglish.Some? && g.selectedVietnamese.Some?
    ensures SameBoard(g, r.game)
    ensures r.game.attempts == g.attempts + 1
    ensures r.game.selectedEnglish == None && r.game.selectedVietnamese == None
    ensures g.selectedEnglish.value.id == g.selectedVietnamese.value.id ==>
              && r.game.score == g.score + 1
              && r.game.matchesFound == g.matchesFound + 1
              && r.game.matched == g.matched + {g.selectedEnglish.value.id}
              && (r.completed <==> Complete(r.game))
    ensures g.selectedEnglish.value.id != g.selectedVietnamese.value.id ==>
              && r.game.score == g.score
              && r.game.matchesFound == g.matchesFound
              && r.game.matched == g.matched
              && !r.completed
  {
    var englishId := g.selectedEnglish.value.id;
    var vietnameseId := g.selectedVietnamese.value.id;
    if englishId == vietnameseId then
      var h := g.(attempts := g.attempts + 1, score := g.score + 1,
                  matchesFound := g.matchesFound + 1, matched := g.matched + {englishId},
                  selectedEnglish := None, selectedVietnamese := None);
      Checked(h, h.matchesFound == |h.lesson.vocab|)
    else
      Checked(g.(attempts := g.attempts + 1, selectedEnglish := None, selectedVietnamese := None), false)
  }

  /** One click, followed by the check it schedules, if any. */
  function Step(g: Game, c: CardClick): (r: Checked)
    requires OnBoard(g, c)
    ensures SameBoard(g, r.game)
  {
    var clicked := HandleCardClick(g, c.side, c.position);
    if clicked.checkScheduled then CheckMatch(clicked.game) else Checked(clicked.game, false)
  }

  /** A sequence of clicks, counting the ones that complete the lesson. */
  function Run(g: Game, clicks: seq<CardClick>): (r: Played)
    requires forall c :: c in clicks ==> OnBoard(g, c)
    ensures SameBoard(g, r.game)
    decreases |clicks|
  {
    if clicks == [] then Played(g, 0)
    else
      var step := Step(g, clicks[0]);
      assert forall c :: c in clicks[1..] ==> OnBoard(step.game, c) by {
        forall c | c in clicks[1..]
          ensures OnBoard(step.game, c)
        {
          assert c in clicks;
          assert OnBoard(g, c);
        }
      }
      var rest := Run(step.game, clicks[1..]);
      Played(rest.game, rest.completions + (if step.completed then 1 else 0))
  }

  // ---------------------------------------------------------------------
  // Properties
  // ---------------------------------------------------------------------

  /** Every card on the board belongs to the lesson, and each column has one
      card per pair. */
  lemma ColumnIds(g: Game, side: Side, position: nat)
    requires Inv(g) && position < |Column(g, side)|
    ensures |Column(g, side)| == |g.lesson.vocab|
    ensures Column(g, side)[position].id in Ids(g.lesson.vocab)
  {
    var vocab := g.lesson.vocab;
    var cards := if side == English then EnglishCards(vocab) else VietnameseCards(vocab);
    assert multiset(Column(g, side)) == multiset(cards);
    assert |Column(g, side)| == |multiset(Column(g, side))| == |cards|;
    var card := Column(g, side)[position];
    assert card in multiset(cards);
    var k :| 0 <= k < |cards| && cards[k] == card;
    assert card.id == vocab[k].id;
  }

  /** `matchesFound` (and so `score`) never exceeds the number of pairs. */
  lemma MatchesBounded(g: Game)
    requires Inv(g)
    ensures g.score == g.matchesFound <= |g.lesson.vocab|
  {
    IdsCount(g.lesson.vocab);
    SubsetCard(g.matched, Ids(g.lesson.vocab));
  }

  lemma SubsetCard<T>(a: set<T>, b: set<T>)
    requires a <= b
    ensures |a| <= |b|
    ensures |a| == |b| ==> a == b
  {
    assert b == a + (b - a);
    assert |b| == |a| + |b - a|;
    if |a| == |b| {
      assert b - a == {};
    }
  }

  /** In a complete game every id is matched, so every click is ignored. */
  lemma CompleteIgnoresClicks(g: Game, c: CardClick)
    requires Inv(g) && Complete(g) && OnBoard(g, c)
    ensures Step(g, c) == Checked(g, false)
  {
    IdsCount(g.lesson.vocab);
    SubsetCard(g.matched, Ids(g.lesson.vocab));
    ColumnIds(g, c.side, c.position);
  }

  /** A click (and the check it may trigger) keeps the invariant and leaves
      the game at rest; `matchesFound` and `attempts` never go down, and the
      step completes the lesson exactly when it brings `matchesFound` up to
      the vocabulary size. */
  lemma StepPreservesInv(g: Game, c: CardClick)
    requires Inv(g) && AtRest(g) && OnBoard(g, c)
    ensures Inv(Step(g, c).game) && AtRest(Step(g, c).game)
    ensures g.matchesFound <= Step(g, c).game.matchesFound
    ensures g.attempts <= Step(g, c).game.attempts
    ensures Step(g, c).completed <==> !Complete(g) && Complete(Step(g, c).game)
  {
    var card := Column(g, c.side)[c.position];
    ColumnIds(g, c.side, c.position);
    var clicked := HandleCardClick(g, c.side, c.position);
    if card.id !in g.matched {
      var h := clicked.game;
      assert Selectable(h, h.selectedEnglish) && Selectable(h, h.selectedVietnamese);
      if clicked.checkScheduled {
        var r := CheckMatch(h);
        var id := h.selectedEnglish.value.id;
        if id == h.selectedVietnamese.value.id {
          assert id !in g.matched;
          assert |r.game.matched| == |g.matched| + 1;
          assert Inv(r.game);
          MatchesBounded(r.game);
        }
      }
    }
  }

  /** The lesson completes at most once in any sequence of clicks: exactly
      once if it was not complete at the start and is complete at the end,
      and never otherwise. `matchesFound` only grows. */
  lemma {:induction false} RunCompletesOnce(g: Game, clicks: seq<CardClick>)
    requires Inv(g) && AtRest(g)
    requires forall c :: c in clicks ==> OnBoard(g, c)
    ensures Inv(Run(g, clicks).game) && AtRest(Run(g, clicks).game)
    ensures g.matchesFound <= Run(g, clicks).game.matchesFound
    ensures Run(g, clicks).completions
              == if !Complete(g) && Complete(Run(g, clicks).game) then 1 else 0
    decreases |clicks|
  {
    if clicks != [] {
      var step := Step(g, clicks[0]);
      StepPreservesInv(g, clicks[0]);
      assert forall c :: c in clicks[1..] ==> OnBoard(step.game, c) by {
        forall c | c in clicks[1..]
          ensures OnBoard(step.game, c)
        {
          assert c in clicks;
        }
      }
      RunCompletesOnce(step.game, clicks[1..]);
      MatchesBounded(Run(g, clicks).game);
      MatchesBounded(step.game);
    }
  }

  /** Starting a lesson and then clicking: the lesson completes exactly
      when every pair ends up matched, and then only once. */
  lemma FreshGameCompletesOnce(lesson: Lesson, englishDraws: seq<nat>, vietnameseDraws: seq<nat>,
                               clicks: seq<CardClick>)
    requires ValidDraws(englishDraws, |lesson.vocab|) && ValidDraws(vietnameseDraws, |lesson.vocab|)
    requires DistinctIds(lesson.vocab) && |lesson.vocab| > 0
    requires forall c :: c in clicks ==> c.position < |lesson.vocab|
    ensures forall c :: c in clicks ==> OnBoard(InitializeGame(lesson, englishDraws, vietnameseDraws), c)
    ensures var r := Run(InitializeGame(lesson, englishDraws, vietnameseDraws), clicks);
            r.completions == (if r.game.matchesFound == |lesson.vocab| then 1 else 0)
  {
    var g := InitializeGame(lesson, englishDraws, vietnameseDraws);
    forall c | c in clicks
      ensures OnBoard(g, c)
    {
      assert |g.englishColumn| == |multiset(g.englishColumn)| == |lesson.vocab|;
      assert |g.vietnameseColumn| == |multiset(g.vietnameseColumn)| == |lesson.vocab|;
    }
    RunCompletesOnce(g, clicks);
  }
}
