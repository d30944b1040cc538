# US States Quiz — a Dafny model of the quiz session

The quiz shows a map of the United States and names one state at a time; the player clicks
the state on the map. This project models the part of `game.js` that decides what the game
does, leaving out how it is drawn:

- **Catalog** (`catalog.dfy`): the `stateNames` table (51 two-digit FIPS keys, including the
  District of Columbia under "11") and `fiftyStates`, the list derived from it with
  `Object.entries(...).filter(...)`. The model reproduces JavaScript's enumeration order for
  integer-like keys: "10".."56" come first in ascending order, then "01".."09" as written.
  It proves that `fiftyStates` has 50 entries with distinct keys and no District of
  Columbia, and that it holds exactly the table's other entries.
- **FisherYates** (`shuffle.dfy`): `shuffleArray`, the in-place Fisher-Yates shuffle. The
  `Math.random` draws become an explicit choice sequence `js`, with `js[i]` in `[0, i]`. The
  in-place method is proved equal to a recursive definition. The shuffle is proved to be a
  permutation, every permutation is reached by some choices, and on distinct elements
  different choices give different orders.
- **Session** (`session.dfy`): the `USStatesQuiz` state (score, streak, best streak,
  attempts, correct answers, completed keys, the remaining queue, the current target) and
  the transitions `startNewGame`, `nextState`, `handleStateClick`, `skipState` and the
  accuracy computed by `endGame`.
  - The one-second and two-second `setTimeout` callbacks that call `nextState` become a
    separate `Advance` event. It may arrive at any time, any number of times.
  - A session invariant `Inv` is proved to hold after any interleaving of clicks, skips and
    advances.
  - A perfect game is proved to end with 2950 points, a best streak of 50, all 50 states
    completed and 100 percent accuracy.

The completed-state count is not always the correct-answer count. A second click on the
target before the scheduled advance arrives counts as a second correct answer, but it
completes the same key again. So the invariant promises only `|completedStates| <=
correctAnswers`, and `Session.DoubleClickCountsTwice` exhibits the gap.

## Model

| member | source | states |
|---|---|---|
| Catalog.Fips | game.js:5-17 | a numeric code below 100 becomes a two-character key of decimal digits, leading zero included, whose digits spell the code |
| Catalog.AsEntries | game.js:23 | each `[fips, name]` pair becomes an entry with the two-digit key and the name, position by position, and the length is kept |
| Catalog.IsIndexKey | game.js:21 | a two-digit key is an array index, enumerated before the other keys, exactly when the number it spells is at least 10 |
| Catalog.Filter | game.js:22 | `filter` keeps exactly the elements satisfying the predicate, never more elements than it was given |
| Catalog.FilterPartition | game.js:21-22 | filtering with a predicate and with its negation splits a list into two parts holding all its elements, each as often as before |
| Catalog.FilterDropsOne | game.js:22 | when exactly one position fails the predicate, `filter` removes that position and keeps the rest in order |
| Catalog.ObjectEntries | game.js:21 | `Object.entries` lists every entry of the literal exactly once |
| Catalog.ObjectEntriesRotates | game.js:21 | in a table with ascending keys, `Object.entries` moves the single-digit keys behind the array-index keys |
| Catalog.EnumerationOrder | game.js:4-21 | `stateNames` enumerates Delaware ("10") through Wyoming first, then Alabama through Connecticut |
| Catalog.EnumerationDistinct | game.js:4-21 | the enumerated table has 51 entries with distinct keys; the District of Columbia is second and appears nowhere else |
| Catalog.FindDistinct | game.js:146 | with distinct keys, a property read finds an entry's name exactly when the entry is in the table |
| Catalog.Find | game.js:146 | an own-property read is undefined exactly when the key is absent from the table, and otherwise returns a name stored under that key |
| Catalog.WithoutDistrictFacts | game.js:21-23 | dropping "11" from the enumerated table leaves 50 entries with distinct keys: exactly the table's entries other than the District |
| Catalog.FiftyStatesFacts | game.js:4-23 | `fiftyStates` has 50 entries, no key twice, no District of Columbia, and every entry's name is the one `stateNames` stores under its key |
| Catalog.FiftyStatesOrder | game.js:21-23 | `fiftyStates` is the enumerated table with its second entry, the District of Columbia, removed |
| Catalog.StateNamesOrder | game.js:4-21 | the enumeration of `stateNames` is the literal rotated so that its first seven entries come last |
| FisherYates.Swap | game.js:125 | the destructuring swap exchanges the two positions, keeps the length and leaves every other position as it was |
| FisherYates.Shuffle | game.js:122-127 | the recursive reading of the loop keeps the length. It is the reference `ShuffleArray` is proved equal to, and `ShufflePermutes` proves it a permutation |
| FisherYates.ShuffleLast | game.js:123-125 | the last position of the shuffle holds the element drawn for it, and the positions in front of it are the shuffle of what the swap left there |
| FisherYates.SwapPermutes | game.js:125 | a swap neither adds nor loses an element |
| FisherYates.ShufflePermutes | game.js:122-127 | the shuffle is a permutation of its input |
| FisherYates.LoopStep | game.js:123-125 | one iteration of the loop moves the work still pending one index down |
| FisherYates.ShuffleArray | game.js:122-127 | the in-place loop leaves the array holding the recursive shuffle of its old contents, a permutation of them |
| FisherYates.ShuffleMembers | game.js:122-127 | a value occurs in the shuffle exactly when it occurs in the input |
| FisherYates.EveryPermutationReachable | game.js:122-127 | every reordering of the input is produced by some sequence of draws |
| FisherYates.LastChoiceAgrees | game.js:123-125 | two equal shuffles of distinct elements made the same last draw, and the prefix that draw's swap leaves in front of the last position (distinct again) is shuffled to equal results by the remaining draws |
| FisherYates.ChoicesDetermineOrder | game.js:122-127 | on distinct elements, equal shuffles come from equal draws, so the draws and the orders correspond one to one |
| Session.Initial | game.js:26-34 | the constructor's session has no target and an empty queue, and satisfies the invariant for every catalog |
| Session.EndGame | game.js:235-236 | ending the game clears the target and changes nothing else |
| Session.NextState | game.js:129-137 | with a non-empty queue, the last queued state becomes the target and the queue shrinks by it; otherwise the game ends |
| Session.StartNewGame | game.js:99-120 | every counter is zeroed and nothing is completed; the queue plus target is the shuffle of the fifty states, a permutation of them; a target is set and the invariant holds |
| Session.RestartForgetsPreviousGame | game.js:99-120 | a new game does not depend on the session it replaces |
| Session.Award | game.js:153 | a correct answer earns at least 10 points, more than 10 while a streak is running |
| Session.HandleStateClick | game.js:139-189 | clicks are ignored without a target or on "11". Otherwise the attempt is counted. On the target: +1 correct, `10 + 2*streak` points, streak +1, best streak updated, key completed. Elsewhere: streak reset and nothing else changes. The queue never moves. |
| Session.SkipState | game.js:191-209 | with a target, a skip resets the streak and changes nothing else; without one it does nothing |
| Session.Step | game.js:139-209 | a click or a skip leaves the queue and the target alone, and the deferred `nextState` changes nothing else. No event lowers the score, attempts, correct answers or best streak, or un-completes a state |
| Session.ClickKeepsInv | game.js:139-189 | a click preserves the session invariant |
| Session.AdvanceKeepsInv | game.js:129-137 | the deferred `nextState` preserves the session invariant |
| Session.StepKeepsInv | game.js:139-209 | every event preserves the session invariant |
| Session.RunKeepsInv | game.js:139-209 | any sequence of events preserves the session invariant |
| Session.ReachableInv | game.js:99-209 | every session reached from a new game satisfies the invariant. Correct answers never exceed attempts. The best streak lies between the streak and the correct count. The score lies between 10 per correct answer plus the current streak's bonus and the score of an unbroken run. At most one completed key per correct answer. The queue never holds a key twice. |
| Session.RunMonotone | game.js:139-209 | within a game, score, attempts, correct answers, best streak and the completed set never decrease |
| Session.AdvanceRetiresTarget | game.js:129-135 | each advance removes exactly the top of the queue-plus-target |
| Session.AdvancesEndGame | game.js:129-133 | as many advances as states left end the game, whatever clicks came before |
| Session.BonusClosedForm | game.js:153 | the streak bonuses of n answers in a row add up to n(n-1) |
| Session.StreakPointsClosedForm | game.js:153 | n correct answers in a row from streak s earn n(10 + 2s) + n(n-1) points |
| Session.UnbrokenRunScore | game.js:153 | an unbroken run of n answers from streak 0 earns 10n + n(n-1) points |
| Session.PerfectRunStep | game.js:150-168 | one correct click followed by its advance scores the target, completes its key and pops the queue |
| Session.PerfectRun | game.js:150-168 | answering every remaining target correctly ends the game and completes every queued key; each of correct answers, attempts and streak grows by the queue length, and the score grows by an unbroken run's points |
| Session.PerfectFromFresh | game.js:150-168 | a fresh game over any valid catalog of n states, answered perfectly, scores 10n + n(n-1), completes all n keys and has accuracy 100 |
| Session.PerfectGame | game.js:99-168 | a new game answered perfectly ends with 2950 points, 50 correct answers out of 50 attempts, a best streak of 50, all fifty states completed, and the summary (2950, 50, 100) |
| Session.DoubleClickCountsTwice | game.js:150-168 | two clicks on the target before the advance count two correct answers and 22 points but complete one key |
| Session.DoubleClickAtStart | game.js:99-168 | every new game admits that double click |
| Session.Accuracy | game.js:238-240 | accuracy is 0 without attempts, and otherwise lies within half a percent of 100·correct/attempts, a half rounding up |
| Session.AccuracyIsNearest | game.js:238-240 | only one whole number meets that rounding condition, so `Accuracy` is the rounded percentage |
| Session.AccuracyBounds | game.js:238-240 | accuracy never exceeds 100 while correct answers do not exceed attempts, and is 100 when every attempt was correct |
| Session.Results | game.js:235-244 | the game-over summary shows the score, the correct count and the rounded accuracy. The accuracy is 0 without attempts, at most 100 while correct answers do not exceed attempts, and exactly 100 when every attempt was correct |

## Left out

- Loading and drawing the map (`init`, game.js:40-97): TopoJSON fetching, D3 projection and event binding are I/O.
- `statesGeoData` is held only for drawing.
- DOM updates and feedback text are display only: `updateScoreboard`, `showFeedback`, `hideFeedback`, `hideGameOver`, `resetMapColors` and the CSS classes.
- The `stateNames[clickedFips] || "Unknown"` name in the feedback text is display only. The lookup itself is `Catalog.Find`.
- Catalog.Find: models an own-property lookup only. In JavaScript a key naming an `Object.prototype` member, such as "constructor" or "toString", reads an inherited function rather than `undefined`, and `Find` answers `None` for it. Clicks only deliver two-digit keys padded from map ids (game.js:74-76), so no such key reaches the lookup.
- Timers: `setTimeout` delays are not modelled. The deferred `nextState` is the `Advance` event, which may arrive at any time, any number of times. A real browser sends at most one per correct answer or skip, after a fixed delay.
- `Math.random`: the draws are the explicit choice sequence `js`, so randomness and its distribution are not modelled.
- Session.Accuracy: computes `Math.round(correct / attempts * 100)` in exact rational arithmetic. Floating point can land just below an exact half and round down. For 57 correct out of 200 attempts the exact value 28.5 gives 29, while the floating-point product may give 28.
- Integer widths: JavaScript numbers are doubles. The counters are unbounded naturals here, because a session cannot reach 2^53.
- `showGameOver` and the `DOMContentLoaded` bootstrap (game.js:250-262) are display and start-up glue.
