/** The quiz session of `USStatesQuiz`: a shuffled queue of the fifty states, a current target,
    and the scoreboard counters that clicks and skips update. The browser's timers become the
    free `Advance` event, which may arrive at any moment, any number of times. */
module Session {
  import opened Catalog
  import opened FisherYates

  datatype Quiz = Quiz(
    score: nat,
    streak: nat,
    maxStreak: nat,
    attempts: nat,
    correctAnswers: nat,
    completedStates: set<string>,
    remainingStates: seq<StateEntry>,
    currentState: Option<StateEntry>)

  /** What the player can do, and the deferred `nextState()` that a correct answer or a skip
      schedules. */
  datatype Event = Click(fips: string) | Skip | Advance

  /** What the game-over screen shows. */
  datatype Summary = Summary(finalScore: nat, correctCount: nat, accuracy: nat)

  /** The states of this game not yet moved past: the queue, with the current target on top
      (the queue is popped from its end). */
  function Deck(q: Quiz): seq<StateEntry>
  {
    q.remainingStates + (if q.currentState.Some? then [q.currentState.value] else [])
  }

  /** A list a game can be dealt from: distinct keys, none of them the District of Columbia. */
  predicate ValidCatalog(cat: seq<StateEntry>)
  {
    DistinctFips(cat) && forall e :: e in cat ==> e.fips != DistrictFips
  }

  /** `Math.max`. */
  function Max(a: nat, b: nat): nat
  {
    if a < b then b else a
  }

  /** Points for a correct answer given the streak before it: never less than 10, and more the
      longer the streak. */
  function Award(streak: nat): (points: nat)
    ensures points >= 10
    ensures streak > 0 ==> points > 10
  {
    10 + 2 * streak
  }

  /** The streak bonuses of `n` correct answers in a row from streak 0: 0 + 2 + ... + 2(n - 1). */
  function Bonus(n: nat): nat
  {
    if n == 0 then 0 else Bonus(n - 1) + 2 * (n - 1)
  }

  /** Points for `n` correct answers in a row, the first of them made with streak `s`. */
  function StreakPoints(n: nat, s: nat): nat
  {
    if n == 0 then 0 else Award(s) + StreakPoints(n - 1, s + 1)
  }

  /** What holds of every session dealt from `cat`, however events interleave: the counters
      agree with each other, the score lies between what the correct answers earn without and
      with an unbroken streak, no state is in the deck twice, and a completed state is never
      asked again. */
  predicate Inv(q: Quiz, cat: seq<StateEntry>)
  {
    && q.correctAnswers <= q.attempts
    && q.streak <= q.maxStreak <= q.correctAnswers
    && 10 * q.correctAnswers + Bonus(q.streak) <= q.score
    && q.score <= 10 * q.correctAnswers + Bonus(q.correctAnswers)
    && |q.completedStates| <= q.correctAnswers
    && q.completedStates <= FipsOf(cat)
    && (forall e :: e in Deck(q) ==> e in cat)
    && DistinctFips(Deck(q))
    && q.completedStates !! FipsOf(q.remainingStates)
    && (q.currentState.None? ==> q.remainingStates == [])
  }

  /** The constructor: no game is running yet. */
  function Initial(): (q: Quiz)
    ensures forall cat :: Inv(q, cat)
    ensures Deck(q) == [] && q.currentState.None?
  {
    Quiz(0, 0, 0, 0, 0, {}, [], None)
  }

  /** `endGame`: no target any more; the counters are kept for the summary. */
  function EndGame(q: Quiz): (r: Quiz)
    ensures r.currentState.None? && r.(currentState := q.currentState) == q
  {
    q.(currentState := None)
  }

  /** `nextState`: take the next target off the end of the queue, or end the game when the
      queue is empty. */
  function NextState(q: Quiz): (r: Quiz)
    ensures q.remainingStates != [] ==> r.currentState.Some? && Deck(r) == q.remainingStates
    ensures q.remainingStates == [] ==> r.currentState.None? && Deck(r) == []
    ensures r.(remainingStates := q.remainingStates, currentState := q.currentState) == q
  {
    if q.remainingStates == [] then EndGame(q)
    else
      var n := |q.remainingStates|;
      q.(currentState := Some(q.remainingStates[n - 1]), remainingStates := q.remainingStates[..n - 1])
  }

  /** `startNewGame`: every counter back to zero, the fifty states dealt in the order the
      shuffle with choices `js` produces, and the first target taken off the deal. */
  function StartNewGame(q: Quiz, js: seq<nat>): (r: Quiz)
    requires ValidChoices(js, |FiftyStates|)
    ensures r.score == 0 && r.streak == 0 && r.maxStreak == 0
    ensures r.attempts == 0 && r.correctAnswers == 0 && r.completedStates == {}
    ensures Deck(r) == Shuffle(FiftyStates, js) && r.currentState.Some?
    ensures multiset(Deck(r)) == multiset(FiftyStates)
    ensures Inv(r, FiftyStates)
  {
    FiftyStatesValid();
    var deal := Shuffle(FiftyStates, js);
    ShufflePermutes(FiftyStates, js);
    ShuffleKeepsDistinctFips(FiftyStates, js);
    ShuffleMembers(FiftyStates, js);
    NextState(Quiz(0, 0, 0, 0, 0, {}, deal, q.currentState))
  }

  /** `handleStateClick`: ignored without a target or on the District of Columbia; otherwise
      an attempt, scored when the clicked key is the target's. A click never moves the queue. */
  function HandleStateClick(q: Quiz, fips: string): (r: Quiz)
    ensures q.currentState.None? || fips == DistrictFips ==> r == q
    ensures r.remainingStates == q.remainingStates && r.currentState == q.currentState
    ensures q.currentState.Some? && fips != DistrictFips ==> r.attempts == q.attempts + 1
    ensures q.currentState.Some? && fips != DistrictFips && fips == q.currentState.value.fips ==>
      && r.correctAnswers == q.correctAnswers + 1
      && r.score == q.score + Award(q.streak)
      && r.streak == q.streak + 1
      && r.maxStreak == Max(q.maxStreak, q.streak + 1)
      && r.completedStates == q.completedStates + {fips}
    ensures q.currentState.Some? && fips != DistrictFips && fips != q.currentState.value.fips ==>
      r == q.(attempts := q.attempts + 1, streak := 0)
  {
    if q.currentState.None? || fips == DistrictFips then q
    else if fips == q.currentState.value.fips then
      var streak := q.streak + 1;
      q.(attempts := q.attempts + 1,
         correctAnswers := q.correctAnswers + 1,
         score := q.score + Award(q.streak),
         streak := streak,
         maxStreak := Max(q.maxStreak, streak),
         completedStates := q.completedStates + {fips})
    else
      q.(attempts := q.attempts + 1, streak := 0)
  }

  /** `skipState`: with a target, the streak is lost; the move to the next target is the
      `Advance` it schedules. */
  function SkipState(q: Quiz): (r: Quiz)
    ensures q.currentState.None? ==> r == q
    ensures q.currentState.Some? ==> r == q.(streak := 0)
  {
    if q.currentState.None? then q else q.(streak := 0)
  }

  /** One event. Only `Advance` moves the queue; no event takes points, attempts, correct
      answers or completed states away. */
  function Step(q: Quiz, e: Event): (r: Quiz)
    ensures !e.Advance? ==> r.remainingStates == q.remainingStates && r.currentState == q.currentState
    ensures e.Advance? ==> r.(remainingStates := q.remainingStates, currentState := q.currentState) == q
    ensures r.score >= q.score && r.attempts >= q.attempts && r.correctAnswers >= q.correctAnswers
    ensures r.maxStreak >= q.maxStreak && r.completedStates >= q.completedStates
  {
    match e
    case Click(fips) => HandleStateClick(q, fips)
    case Skip => SkipState(q)
    case Advance => NextState(q)
  }

  /** The session after the events `es`, in order. */
  function Run(q: Quiz, es: seq<Event>): Quiz
    decreases |es|
  {
    if es == [] then q else Run(Step(q, es[0]), es[1..])
  }

  /** `Math.round(correct / attempts * 100)` in exact arithmetic, and 0 without attempts: the
      nearest whole percentage, a half rounded up. */
  function Accuracy(attempts: nat, correct: nat): (pct: nat)
    ensures attempts == 0 ==> pct == 0
    ensures attempts > 0 ==> -(attempts as int) <= 2 * ((100 * correct) as int - attempts * pct) < attempts
  {
    if attempts == 0 then 0
    else
      var pct := (200 * correct + attempts) / (2 * attempts);
      DivisionBounds(200 * correct + attempts, 2 * attempts);
      pct
  }

  /** The game-over summary `endGame` displays. */
  function Results(q: Quiz): (s: Summary)
    ensures s.finalScore == q.score && s.correctCount == q.correctAnswers
    ensures q.attempts == 0 ==> s.accuracy == 0
    ensures q.correctAnswers <= q.attempts ==> s.accuracy <= 100
    ensures 0 < q.attempts == q.correctAnswers ==> s.accuracy == 100
  {
    if q.correctAnswers <= q.attempts then
      AccuracyBounds(q.attempts, q.correctAnswers);
      Summary(q.score, q.correctAnswers, Accuracy(q.attempts, q.correctAnswers))
    else
      Summary(q.score, q.correctAnswers, Accuracy(q.attempts, q.correctAnswers))
  }

  // ---------------------------------------------------------------------------------------
  // Helpers.

  lemma DivisionBounds(n: nat, d: nat)
    requires d > 0
    ensures d * (n / d) <= n < d * (n / d) + d
  {
  }

  lemma FiftyStatesValid()
    ensures ValidCatalog(FiftyStates) && |FiftyStates| == 50
  {
    FiftyStatesFacts();
  }

  lemma SwapKeepsDistinctFips(s: seq<StateEntry>, i: nat, j: nat)
    requires i < |s| && j < |s| && DistinctFips(s)
    ensures DistinctFips(Swap(s, i, j))
  {
    var r := Swap(s, i, j);
    forall a, b | 0 <= a < b < |r|
      ensures r[a].fips != r[b].fips
    {
      var a' := if a == i then j else if a == j then i else a;
      var b' := if b == i then j else if b == j then i else b;
      assert r[a] == s[a'] && r[b] == s[b'];
    }
  }

  lemma AppendKeepsDistinctFips(u: seq<StateEntry>, x: StateEntry)
    requires DistinctFips(u)
    requires forall k :: 0 <= k < |u| ==> u[k].fips != x.fips
    ensures DistinctFips(u + [x])
  {
    var r := u + [x];
    forall a, b | 0 <= a < b < |r|
      ensures r[a].fips != r[b].fips
    {
      assert r[a] == u[a];
      if b < |u| {
        assert r[b] == u[b];
      }
    }
  }

  /** Entries drawn from the front of a list with distinct keys never share the last entry's key. */
  lemma LastKeyFresh(t: seq<StateEntry>, u: seq<StateEntry>)
    requires DistinctFips(t) && t != []
    requires forall x :: x in u ==> x in t[..|t| - 1]
    ensures forall k :: 0 <= k < |u| ==> u[k].fips != t[|t| - 1].fips
  {
    var i := |t| - 1;
    forall k | 0 <= k < |u|
      ensures u[k].fips != t[i].fips
    {
      assert u[k] in u;
      var m :| 0 <= m < i && t[..i][m] == u[k];
      assert t[m] == u[k];
    }
  }

  /** Shuffling never puts two entries with the same key into the queue. */
  lemma {:induction false} ShuffleKeepsDistinctFips(s: seq<StateEntry>, js: seq<nat>)
    requires ValidChoices(js, |s|) && DistinctFips(s)
    ensures DistinctFips(Shuffle(s, js))
    decreases |s|
  {
    if |s| > 1 {
      var i := |s| - 1;
      var t := ShuffleUnfold(s, js);
      SwapKeepsDistinctFips(s, i, js[i]);
      var front := t[..i];
      assert DistinctFips(front);
      ShuffleKeepsDistinctFips(front, js[..i]);
      ShuffleMembers(front, js[..i]);
      var u := Shuffle(front, js[..i]);
      LastKeyFresh(t, u);
      AppendKeepsDistinctFips(u, t[i]);
    }
  }

  lemma FipsOfSplit(d: seq<StateEntry>)
    requires d != []
    ensures FipsOf(d) == FipsOf(d[..|d| - 1]) + {d[|d| - 1].fips}
  {
    var n := |d|;
    assert d == d[..n - 1] + [d[n - 1]];
  }

  /** Two orderings of the same entries have the same length and the same keys. */
  lemma SameEntriesSameKeys(a: seq<StateEntry>, b: seq<StateEntry>)
    requires multiset(a) == multiset(b)
    ensures |a| == |b| && FipsOf(a) == FipsOf(b)
  {
    assert |multiset(a)| == |multiset(b)|;
    forall e
      ensures e in a <==> e in b
    {
      assert e in a <==> e in multiset(a);
      assert e in b <==> e in multiset(b);
    }
  }

  /** With distinct keys, a list has as many keys as entries. */
  lemma {:induction false} FipsCount(d: seq<StateEntry>)
    requires DistinctFips(d)
    ensures |FipsOf(d)| == |d|
    decreases |d|
  {
    if d != [] {
      var n := |d|;
      var front := d[..n - 1];
      assert DistinctFips(front);
      FipsCount(front);
      FipsOfSplit(d);
      LastKeyFresh(d, front);
      assert d[n - 1].fips !in FipsOf(front);
    }
  }

  /** The queue below the target: its entries are entries of the deck, with distinct keys,
      none of them the target's. */
  lemma RemainingInDeck(q: Quiz)
    requires DistinctFips(Deck(q))
    ensures forall e :: e in q.remainingStates ==> e in Deck(q)
    ensures DistinctFips(q.remainingStates)
    ensures q.currentState.Some? ==> q.currentState.value.fips !in FipsOf(q.remainingStates)
  {
    var d := Deck(q);
    var rem := q.remainingStates;
    forall e | e in rem
      ensures e in d
    {
      var k :| 0 <= k < |rem| && rem[k] == e;
      assert d[k] == e;
    }
    forall a, b | 0 <= a < b < |rem|
      ensures rem[a].fips != rem[b].fips
    {
      assert d[a] == rem[a] && d[b] == rem[b];
    }
    if q.currentState.Some? {
      forall e | e in rem
        ensures e.fips != q.currentState.value.fips
      {
        var k :| 0 <= k < |rem| && rem[k] == e;
        assert d[k] == e && d[|rem|] == q.currentState.value;
      }
    }
  }

  // ---------------------------------------------------------------------------------------
  // Scoring.

  /** The streak bonuses add up to n(n - 1). */
  lemma {:induction false} BonusClosedForm(n: nat)
    ensures Bonus(n) == n * (n - 1)
  {
    if n > 0 {
      BonusClosedForm(n - 1);
      assert (n - 1) * (n - 2) + 2 * (n - 1) == n * (n - 1);
    }
  }

  /** A run of `n` correct answers from streak `s` earns `n` awards at streak `s` plus the
      bonuses of a run from streak 0. */
  lemma {:induction false} StreakPointsClosedForm(n: nat, s: nat)
    ensures StreakPoints(n, s) == n * Award(s) + Bonus(n)
  {
    if n > 0 {
      StreakPointsClosedForm(n - 1, s + 1);
      assert (n - 1) * Award(s + 1) == (n - 1) * Award(s) + 2 * (n - 1);
    }
  }

  /** `n` correct answers from streak 0 earn 10n + n(n - 1) points. */
  lemma UnbrokenRunScore(n: nat)
    ensures StreakPoints(n, 0) == 10 * n + n * (n - 1)
  {
    StreakPointsClosedForm(n, 0);
    BonusClosedForm(n);
  }

  // ---------------------------------------------------------------------------------------
  // The session invariant.

  lemma ClickKeepsInv(q: Quiz, cat: seq<StateEntry>, fips: string)
    requires Inv(q, cat)
    ensures Inv(HandleStateClick(q, fips), cat)
  {
    var r := HandleStateClick(q, fips);
    assert Deck(r) == Deck(q);
    if q.currentState.Some? && fips != DistrictFips && fips == q.currentState.value.fips {
      var e := q.currentState.value;
      RemainingInDeck(q);
      assert Deck(q)[|Deck(q)| - 1] == e;
      assert fips in FipsOf(cat);
      assert Bonus(q.streak + 1) == Bonus(q.streak) + 2 * q.streak;
      assert Bonus(q.correctAnswers + 1) == Bonus(q.correctAnswers) + 2 * q.correctAnswers;
      assert |q.completedStates + {fips}| <= |q.completedStates| + 1;
    }
  }

  lemma AdvanceKeepsInv(q: Quiz, cat: seq<StateEntry>)
    requires Inv(q, cat)
    ensures Inv(NextState(q), cat)
  {
    var r := NextState(q);
    if q.remainingStates != [] {
      RemainingInDeck(q);
      var n := |q.remainingStates|;
      assert r.remainingStates == q.remainingStates[..n - 1];
      assert FipsOf(r.remainingStates) <= FipsOf(q.remainingStates);
    }
  }

  /** Every event keeps the invariant. */
  lemma StepKeepsInv(q: Quiz, cat: seq<StateEntry>, e: Event)
    requires Inv(q, cat)
    ensures Inv(Step(q, e), cat)
  {
    match e
    case Click(fips) => ClickKeepsInv(q, cat, fips);
    case Skip =>
    case Advance => AdvanceKeepsInv(q, cat);
  }

  /** Any sequence of events keeps the invariant. */
  lemma {:induction false} RunKeepsInv(q: Quiz, cat: seq<StateEntry>, es: seq<Event>)
    requires Inv(q, cat)
    ensures Inv(Run(q, es), cat)
    decreases |es|
  {
    if es != [] {
      StepKeepsInv(q, cat, es[0]);
      RunKeepsInv(Step(q, es[0]), cat, es[1..]);
    }
  }

  /** Every session reached by starting a game and then handling any events satisfies the
      invariant for the fifty states. */
  lemma ReachableInv(q0: Quiz, js: seq<nat>, es: seq<Event>)
    requires ValidChoices(js, |FiftyStates|)
    ensures Inv(Run(StartNewGame(q0, js), es), FiftyStates)
  {
    RunKeepsInv(StartNewGame(q0, js), FiftyStates, es);
  }

  /** A restart discards everything about the session it is called on. */
  lemma RestartForgetsPreviousGame(q1: Quiz, q2: Quiz, js: seq<nat>)
    requires ValidChoices(js, |FiftyStates|)
    ensures StartNewGame(q1, js) == StartNewGame(q2, js)
  {
  }

  /** Within a game the counters never go back and completed states stay completed. */
  lemma {:induction false} RunMonotone(q: Quiz, es: seq<Event>)
    ensures Run(q, es).score >= q.score
    ensures Run(q, es).attempts >= q.attempts
    ensures Run(q, es).correctAnswers >= q.correctAnswers
    ensures Run(q, es).maxStreak >= q.maxStreak
    ensures Run(q, es).completedStates >= q.completedStates
    decreases |es|
  {
    if es != [] {
      RunMonotone(Step(q, es[0]), es[1..]);
    }
  }

  /** Each `Advance` retires exactly the target on top of the deck. */
  lemma AdvanceRetiresTarget(q: Quiz, cat: seq<StateEntry>)
    requires Inv(q, cat)
    ensures Deck(Step(q, Advance)) == if Deck(q) == [] then [] else Deck(q)[..|Deck(q)| - 1]
  {
  }

  function Advances(n: nat): (es: seq<Event>)
    ensures |es| == n && forall i :: 0 <= i < n ==> es[i] == Advance
  {
    seq(n, _ => Advance)
  }

  /** As many `Advance` events as the deck holds end the game, whatever else happened. */
  lemma {:induction false} AdvancesEndGame(q: Quiz, cat: seq<StateEntry>)
    requires Inv(q, cat)
    ensures Run(q, Advances(|Deck(q)|)).currentState.None?
    decreases |Deck(q)|
  {
    var n := |Deck(q)|;
    if n > 0 {
      AdvanceRetiresTarget(q, cat);
      AdvanceKeepsInv(q, cat);
      assert Advances(n)[1..] == Advances(n - 1);
      AdvancesEndGame(Step(q, Advance), cat);
    }
  }

  // ---------------------------------------------------------------------------------------
  // A perfect game.

  /** Clicking every target of the deck `d` in the order it is asked, each click followed by
      the advance it schedules. */
  function PerfectAnswers(d: seq<StateEntry>): (es: seq<Event>)
    ensures |es| == 2 * |d|
    decreases |d|
  {
    if d == [] then [] else [Click(d[|d| - 1].fips), Advance] + PerfectAnswers(d[..|d| - 1])
  }

  /** What a perfect run needs of a session: a best streak at least the current one, a target
      whenever the deck is not empty, and no District of Columbia in the deck. */
  predicate Answerable(q: Quiz)
  {
    && q.streak <= q.maxStreak
    && (q.currentState.None? ==> q.remainingStates == [])
    && forall e :: e in Deck(q) ==> e.fips != DistrictFips
  }

  lemma InvAnswerable(q: Quiz, cat: seq<StateEntry>)
    requires Inv(q, cat) && ValidCatalog(cat)
    ensures Answerable(q)
  {
  }

  /** The first click and advance of a perfect run, unfolded. */
  lemma PerfectRunStep(q: Quiz) returns (q2: Quiz)
    requires Answerable(q) && Deck(q) != []
    ensures Answerable(q2) && Deck(q2) == Deck(q)[..|Deck(q)| - 1]
    ensures Run(q, PerfectAnswers(Deck(q))) == Run(q2, PerfectAnswers(Deck(q2)))
    ensures q2.correctAnswers == q.correctAnswers + 1 && q2.attempts == q.attempts + 1
    ensures q2.streak == q.streak + 1 && q2.maxStreak == Max(q.maxStreak, q.streak + 1)
    ensures q2.score == q.score + Award(q.streak)
    ensures q2.completedStates == q.completedStates + {Deck(q)[|Deck(q)| - 1].fips}
  {
    var d := Deck(q);
    var n := |d|;
    var e := q.currentState.value;
    assert d[n - 1] == e;
    var q1 := Step(q, Click(e.fips));
    q2 := Step(q1, Advance);
    assert Deck(q2) == q.remainingStates;
    forall x | x in Deck(q2)
      ensures x.fips != DistrictFips
    {
      var k :| 0 <= k < |Deck(q2)| && Deck(q2)[k] == x;
      assert d[k] == x;
    }
    var rest := PerfectAnswers(d[..n - 1]);
    var es := PerfectAnswers(d);
    assert es == [Click(e.fips), Advance] + rest;
    assert es[0] == Click(e.fips) && es[1..] == [Advance] + rest;
    assert ([Advance] + rest)[0] == Advance && ([Advance] + rest)[1..] == rest;
  }

  /** Answering the whole deck correctly: the streak grows by one per answer, the score by the
      points of an unbroken run, and every state of the deck ends up completed. */
  lemma {:induction false} PerfectRun(q: Quiz) returns (r: Quiz)
    requires Answerable(q)
    ensures r == Run(q, PerfectAnswers(Deck(q)))
    ensures r.currentState.None?
    ensures r.correctAnswers == q.correctAnswers + |Deck(q)|
    ensures r.attempts == q.attempts + |Deck(q)|
    ensures r.streak == q.streak + |Deck(q)|
    ensures r.maxStreak == Max(q.maxStreak, q.streak + |Deck(q)|)
    ensures r.score == q.score + StreakPoints(|Deck(q)|, q.streak)
    ensures r.completedStates == q.completedStates + FipsOf(Deck(q))
    decreases |Deck(q)|
  {
    if Deck(q) == [] {
      r := q;
    } else {
      var q2 := PerfectRunStep(q);
      r := PerfectRun(q2);
      FipsOfSplit(Deck(q));
      assert Max(Max(q.maxStreak, q.streak + 1), q.streak + |Deck(q)|) == Max(q.maxStreak, q.streak + |Deck(q)|);
    }
  }

  /** A fresh game whose deck holds the catalog `cat`, answered perfectly: every state of the
      catalog completed, one correct answer per attempt, and the points of an unbroken streak. */
  lemma PerfectFromFresh(q: Quiz, cat: seq<StateEntry>) returns (r: Quiz)
    requires Inv(q, cat) && ValidCatalog(cat) && multiset(Deck(q)) == multiset(cat)
    requires q.score == 0 && q.streak == 0 && q.maxStreak == 0
    requires q.attempts == 0 && q.correctAnswers == 0 && q.completedStates == {}
    ensures r == Run(q, PerfectAnswers(Deck(q)))
    ensures r.score == 10 * |cat| + |cat| * (|cat| - 1) && r.maxStreak == |cat|
    ensures r.correctAnswers == |cat| && r.attempts == |cat|
    ensures r.completedStates == FipsOf(cat) && |r.completedStates| == |cat|
    ensures r.currentState.None?
    ensures |cat| > 0 ==> Results(r).accuracy == 100
  {
    SameEntriesSameKeys(Deck(q), cat);
    InvAnswerable(q, cat);
    r := PerfectRun(q);
    UnbrokenRunScore(|cat|);
    FipsCount(cat);
    AccuracyBounds(|cat|, |cat|);
  }

  /** Starting a game and answering all fifty states correctly: 2950 points, a streak of 50,
      every state completed and an accuracy of 100. */
  lemma PerfectGame(q0: Quiz, js: seq<nat>) returns (r: Quiz)
    requires ValidChoices(js, |FiftyStates|)
    ensures r == Run(StartNewGame(q0, js), PerfectAnswers(Shuffle(FiftyStates, js)))
    ensures r.score == 2950 && r.maxStreak == 50
    ensures r.correctAnswers == 50 && r.attempts == 50
    ensures r.completedStates == FipsOf(FiftyStates) && |r.completedStates| == 50
    ensures r.currentState.None?
    ensures Results(r) == Summary(2950, 50, 100)
  {
    FiftyStatesValid();
    r := PerfectFromFresh(StartNewGame(q0, js), FiftyStates);
  }

  /** Clicking the target twice before the scheduled advance arrives counts two correct
      answers but completes one state: the completed count can fall behind the correct count. */
  lemma DoubleClickCountsTwice(q: Quiz, cat: seq<StateEntry>) returns (r: Quiz)
    requires Inv(q, cat) && ValidCatalog(cat) && q.currentState.Some?
    requires q.correctAnswers == 0
    ensures r == Run(q, [Click(q.currentState.value.fips), Click(q.currentState.value.fips)])
    ensures r.correctAnswers == 2 && |r.completedStates| == 1 && r.score == 22
  {
    var e := q.currentState.value;
    assert e in Deck(q);
    assert e.fips != DistrictFips;
    assert q.completedStates == {};
    var es := [Click(e.fips), Click(e.fips)];
    assert es[0] == Click(e.fips) && es[1..] == [Click(e.fips)];
    assert [Click(e.fips)][0] == Click(e.fips) && [Click(e.fips)][1..] == [];
    var q1 := HandleStateClick(q, e.fips);
    assert Run(q, es) == Run(q1, [Click(e.fips)]);
    var q2 := Step(q1, Click(e.fips));
    assert Run(q1, [Click(e.fips)]) == Run(q2, []);
    r := q2;
  }

  /** At the start of every game, clicking the first target twice gives two correct answers
      and one completed state. */
  lemma DoubleClickAtStart(q0: Quiz, js: seq<nat>) returns (r: Quiz)
    requires ValidChoices(js, |FiftyStates|)
    ensures var q := StartNewGame(q0, js);
      r == Run(q, [Click(q.currentState.value.fips), Click(q.currentState.value.fips)])
    ensures r.correctAnswers == 2 && |r.completedStates| == 1
  {
    FiftyStatesValid();
    r := DoubleClickCountsTwice(StartNewGame(q0, js), FiftyStates);
  }

  // ---------------------------------------------------------------------------------------
  // Accuracy.

  lemma MulSign(a: nat, d: int)
    requires a > 0
    ensures d >= 1 ==> a * d >= a
    ensures d <= -1 ==> a * d <= -(a as int)
  {
  }

  /** The rounding contract of `Accuracy` has one solution: it is exactly `Math.round`. */
  lemma AccuracyIsNearest(attempts: nat, correct: nat, pct: nat)
    requires attempts > 0
    requires -(attempts as int) <= 2 * ((100 * correct) as int - attempts * pct) < attempts
    ensures pct == Accuracy(attempts, correct)
  {
    var p := Accuracy(attempts, correct);
    MulSign(attempts, pct as int - p);
    assert attempts * (pct as int - p) == attempts * pct - attempts * p;
  }

  /** No more correct answers than attempts means at most 100 percent; all attempts correct
      means exactly 100. */
  lemma AccuracyBounds(attempts: nat, correct: nat)
    requires correct <= attempts
    ensures Accuracy(attempts, correct) <= 100
    ensures attempts > 0 && correct == attempts ==> Accuracy(attempts, correct) == 100
  {
    var p := Accuracy(attempts, correct);
    if attempts > 0 {
      MulSign(attempts, p as int - 100);
      assert attempts * (p as int - 100) == attempts * p - 100 * attempts;
      if correct == attempts {
        AccuracyIsNearest(attempts, correct, 100);
      }
    }
  }
}
