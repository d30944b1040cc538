/** The Fisher-Yates (Knuth) shuffle used to deal the quiz queue. The source draws each swap
    partner with `Math.random`; here the draws are an explicit choice sequence `js`, where
    `js[i]` is the partner picked for position `i`. */
module FisherYates {

  /** A choice sequence for shuffling `n` elements: one partner `js[i]` in `[0, i]` per
      position. Position 0 gets no draw in the source; its only possible partner is itself. */
  predicate ValidChoices(js: seq<nat>, n: nat)
  {
    |js| == n && forall i :: 0 <= i < n ==> js[i] <= i
  }

  /** No element occurs twice. */
  predicate Distinct<T(==)>(s: seq<T>)
  {
    forall i, j :: 0 <= i < j < |s| ==> s[i] != s[j]
  }

  /** `s` with the elements at `i` and `j` exchanged. */
  function Swap<T>(s: seq<T>, i: nat, j: nat): (r: seq<T>)
    requires i < |s| && j < |s|
    ensures |r| == |s| && r[i] == s[j] && r[j] == s[i]
    ensures forall k :: 0 <= k < |s| && k != i && k != j ==> r[k] == s[k]
  {
    s[i := s[j]][j := s[i]]
  }

  /** A swap rearranges the elements and neither adds nor loses any. */
  lemma SwapPermutes<T>(s: seq<T>, i: nat, j: nat)
    requires i < |s| && j < |s|
    ensures multiset(Swap(s, i, j)) == multiset(s)
  {
  }

  /** The result of the shuffle loop: the last position receives the element chosen by
      `js[|s| - 1]`, and the rest is the shuffle of what is left in front of it. */
  function Shuffle<T>(s: seq<T>, js: seq<nat>): (r: seq<T>)
    requires ValidChoices(js, |s|)
    ensures |r| == |s|
    decreases |s|
  {
    if |s| <= 1 then s
    else
      var i := |s| - 1;
      var t := Swap(s, i, js[i]);
      assert t == t[..i] + [t[i]];
      Shuffle(t[..i], js[..i]) + [t[i]]
  }

  lemma SplitLast<T>(s: seq<T>)
    requires |s| > 0
    ensures s == s[..|s| - 1] + [s[|s| - 1]]
  {
  }

  /** One round of the loop: the last position is settled by one swap and the prefix in
      front of it is shuffled with the remaining choices. */
  lemma ShuffleUnfold<T>(s: seq<T>, js: seq<nat>) returns (t: seq<T>)
    requires ValidChoices(js, |s|) && |s| > 1
    ensures t == Swap(s, |s| - 1, js[|s| - 1])
    ensures Shuffle(s, js) == Shuffle(t[..|s| - 1], js[..|s| - 1]) + [t[|s| - 1]]
  {
    t := Swap(s, |s| - 1, js[|s| - 1]);
  }

  /** The shuffle is a permutation: it holds exactly the elements it was given, each as often
      as before. */
  lemma {:induction false} ShufflePermutes<T>(s: seq<T>, js: seq<nat>)
    requires ValidChoices(js, |s|)
    ensures multiset(Shuffle(s, js)) == multiset(s)
    decreases |s|
  {
    if |s| > 1 {
      var i := |s| - 1;
      var t := ShuffleUnfold(s, js);
      SwapPermutes(s, i, js[i]);
      ShufflePermutes(t[..i], js[..i]);
      assert t == t[..i] + [t[i]];
    }
  }

  /** What the loop has still to produce when it stands at index `i` with contents `cur`: the
      shuffle of `cur[..i + 1]` followed by the positions already settled. */
  function Pending<T>(cur: seq<T>, js: seq<nat>, i: nat): (r: seq<T>)
    requires i < |cur| && ValidChoices(js, |cur|)
    ensures |r| == |cur|
  {
    Shuffle(cur[..i + 1], js[..i + 1]) + cur[i + 1..]
  }

  /** Nothing is pending at the last index: the whole contents are still to be shuffled. */
  lemma PendingAtStart<T>(cur: seq<T>, js: seq<nat>)
    requires |cur| > 0 && ValidChoices(js, |cur|)
    ensures Pending(cur, js, |cur| - 1) == Shuffle(cur, js)
  {
    assert cur[..|cur|] == cur && js[..|cur|] == js;
  }

  /** At index 0 everything is settled. */
  lemma PendingAtEnd<T>(cur: seq<T>, js: seq<nat>)
    requires |cur| > 0 && ValidChoices(js, |cur|)
    ensures Pending(cur, js, 0) == cur
  {
    assert cur[..1] + cur[1..] == cur;
  }

  /** Swapping inside the first `n` positions commutes with taking those positions, and leaves
      the rest alone. */
  lemma SwapWithinPrefix<T>(cur: seq<T>, n: nat, i: nat, j: nat)
    requires i < n <= |cur| && j < n
    ensures Swap(cur[..n], i, j) == Swap(cur, i, j)[..n]
    ensures Swap(cur, i, j)[n..] == cur[n..]
  {
  }

  /** `(a + [x]) + b` regrouped as `a + c` when `c` is `x` in front of `b`. */
  lemma Regroup<T>(a: seq<T>, x: T, b: seq<T>, c: seq<T>)
    requires c == [x] + b
    ensures (a + [x]) + b == a + c
  {
  }

  /** One iteration of the loop: swapping position `i` with its partner moves the pending work
      one index down. */
  lemma LoopStep<T>(cur: seq<T>, js: seq<nat>, i: nat)
    requires 0 < i < |cur| && ValidChoices(js, |cur|)
    ensures Pending(cur, js, i) == Pending(Swap(cur, i, js[i]), js, i - 1)
  {
    var r := Swap(cur, i, js[i]);
    var t := ShuffleUnfold(cur[..i + 1], js[..i + 1]);
    SwapWithinPrefix(cur, i + 1, i, js[i]);
    assert js[..i + 1][..i] == js[..i];
    assert t[..i] == r[..i];
    assert r[i..] == [t[i]] + cur[i + 1..] by {
      assert r[i..] == [r[i]] + r[i + 1..];
    }
    Regroup(Shuffle(r[..i], js[..i]), t[i], cur[i + 1..], r[i..]);
  }

  /** Exchanges `a[i]` and `a[j]` in place. */
  method SwapArray<T>(a: array<T>, i: nat, j: nat)
    requires i < a.Length && j < a.Length
    modifies a
    ensures a[..] == Swap(old(a[..]), i, j)
  {
    a[i], a[j] := a[j], a[i];
  }

  /** `shuffleArray`: for `i` from the last index down to 1, swap `a[i]` with `a[js[i]]`. */
  method ShuffleArray<T>(a: array<T>, js: seq<nat>)
    requires ValidChoices(js, a.Length)
    modifies a
    ensures a[..] == Shuffle(old(a[..]), js)
    ensures multiset(a[..]) == multiset(old(a[..]))
  {
    if a.Length == 0 {
      return;
    }
    ghost var result := Shuffle(a[..], js);
    PendingAtStart(a[..], js);
    var i := a.Length - 1;
    while i > 0
      invariant 0 <= i < a.Length
      invariant Pending(a[..], js, i) == result
      decreases i
    {
      LoopStep(a[..], js, i);
      SwapArray(a, i, js[i]);
      i := i - 1;
    }
    PendingAtEnd(a[..], js);
    ShufflePermutes(old(a[..]), js);
  }

  // ---------------------------------------------------------------------------------------
  // Properties of the shuffle.

  /** Dropping equal last elements from two permutations of each other leaves permutations
      of each other. */
  lemma DropLastPermutation<T>(t: seq<T>, p: seq<T>)
    requires |t| == |p| > 0 && multiset(t) == multiset(p) && t[|t| - 1] == p[|p| - 1]
    ensures multiset(t[..|t| - 1]) == multiset(p[..|p| - 1])
  {
    var i := |t| - 1;
    assert t == t[..i] + [t[i]] && p == p[..i] + [p[i]];
    var m1, m2, x := multiset(t[..i]), multiset(p[..i]), multiset([p[i]]);
    assert m1 + x == m2 + x;
    forall y
      ensures m1[y] == m2[y]
    {
      assert (m1 + x)[y] == (m2 + x)[y];
    }
  }

  lemma ExtendChoices(js': seq<nat>, j: nat)
    requires ValidChoices(js', |js'|) && j <= |js'|
    ensures ValidChoices(js' + [j], |js'| + 1)
    ensures (js' + [j])[..|js'|] == js' && (js' + [j])[|js'|] == j
  {
  }

  /** Settling the last position with partner `j` and shuffling the prefix with `js'` is the
      shuffle with choices `js' + [j]`. */
  lemma ExtendShuffle<T>(s: seq<T>, js': seq<nat>, j: nat) returns (js: seq<nat>)
    requires |s| > 1 && j < |s| && ValidChoices(js', |s| - 1)
    ensures js == js' + [j] && ValidChoices(js, |s|)
    ensures Shuffle(s, js) == Shuffle(Swap(s, |s| - 1, j)[..|s| - 1], js') + [s[j]]
  {
    ExtendChoices(js', j);
    js := js' + [j];
    var u := ShuffleUnfold(s, js);
  }

  /** Every permutation of `s` is produced by some choice sequence: no ordering is out of the
      shuffle's reach. */
  lemma {:induction false} EveryPermutationReachable<T>(s: seq<T>, p: seq<T>)
    requires multiset(p) == multiset(s)
    ensures exists js :: ValidChoices(js, |s|) && Shuffle(s, js) == p
    decreases |s|
  {
    assert |p| == |s| by {
      assert |multiset(p)| == |multiset(s)|;
    }
    if |s| == 0 {
      assert ValidChoices([], 0) && Shuffle(s, []) == p;
    } else if |s| == 1 {
      assert p[0] in multiset(s);
      assert p == s;
      assert ValidChoices([0], 1) && Shuffle(s, [0]) == p;
    } else {
      var i := |s| - 1;
      assert p[i] in multiset(s);
      var j: nat :| j < |s| && s[j] == p[i];
      var t := Swap(s, i, j);
      SwapPermutes(s, i, j);
      DropLastPermutation(t, p);
      EveryPermutationReachable(t[..i], p[..i]);
      var js': seq<nat> :| ValidChoices(js', i) && Shuffle(t[..i], js') == p[..i];
      var js := ExtendShuffle(s, js', j);
      SplitLast(p);
      assert ValidChoices(js, |s|) && Shuffle(s, js) == p;
    }
  }

  /** Every element of a shuffle comes from the shuffled sequence. */
  lemma ShuffleMembers<T>(s: seq<T>, js: seq<nat>)
    requires ValidChoices(js, |s|)
    ensures forall x :: x in Shuffle(s, js) <==> x in s
  {
    ShufflePermutes(s, js);
    forall x
      ensures x in Shuffle(s, js) <==> x in s
    {
      assert x in Shuffle(s, js) <==> x in multiset(Shuffle(s, js));
    }
  }

  lemma SwapKeepsDistinct<T>(s: seq<T>, i: nat, j: nat)
    requires i < |s| && j < |s| && Distinct(s)
    ensures Distinct(Swap(s, i, j))
  {
    var r := Swap(s, i, j);
    forall a, b | 0 <= a < b < |r|
      ensures r[a] != r[b]
    {
      var a' := if a == i then j else if a == j then i else a;
      var b' := if b == i then j else if b == j then i else b;
      assert r[a] == s[a'] && r[b] == s[b'];
    }
  }

  /** The last position of a shuffle holds the element chosen for it, and the positions in
      front of it are the shuffle of what the swap left there. */
  lemma ShuffleLast<T>(s: seq<T>, js: seq<nat>)
    requires ValidChoices(js, |s|) && |s| > 1
    ensures Shuffle(s, js)[|s| - 1] == s[js[|s| - 1]]
    ensures Shuffle(s, js)[..|s| - 1] == Shuffle(Swap(s, |s| - 1, js[|s| - 1])[..|s| - 1], js[..|s| - 1])
  {
    var t := ShuffleUnfold(s, js);
  }

  /** In a sequence without repetitions, equal elements sit at equal positions. */
  lemma DistinctIndex<T>(s: seq<T>, a: nat, b: nat)
    requires Distinct(s) && a < |s| && b < |s| && s[a] == s[b]
    ensures a == b
  {
  }

  /** The last position of two equal shuffles of distinct elements was filled by the same
      choice, and the prefixes in front of it are again equal shuffles of the same elements. */
  lemma LastChoiceAgrees<T>(s: seq<T>, js1: seq<nat>, js2: seq<nat>) returns (rest: seq<T>)
    requires Distinct(s) && |s| > 1
    requires ValidChoices(js1, |s|) && ValidChoices(js2, |s|)
    requires Shuffle(s, js1) == Shuffle(s, js2)
    ensures js1[|s| - 1] == js2[|s| - 1]
    ensures ValidChoices(js1[..|s| - 1], |s| - 1) && ValidChoices(js2[..|s| - 1], |s| - 1)
    ensures |rest| == |s| - 1 && Distinct(rest)
    ensures rest == Swap(s, |s| - 1, js1[|s| - 1])[..|s| - 1]
    ensures Shuffle(rest, js1[..|s| - 1]) == Shuffle(rest, js2[..|s| - 1])
  {
    var i := |s| - 1;
    ShuffleLast(s, js1);
    ShuffleLast(s, js2);
    DistinctIndex(s, js1[i], js2[i]);
    var t := Swap(s, i, js1[i]);
    rest := t[..i];
    SwapKeepsDistinct(s, i, js1[i]);
    assert Distinct(rest) by {
      forall a, b | 0 <= a < b < |rest|
        ensures rest[a] != rest[b]
      {
        assert rest[a] == t[a] && rest[b] == t[b];
      }
    }
  }

  /** Two choice sequences that agree on their last choice and on everything before it are
      the same. */
  lemma SameLastSamePrefix(js1: seq<nat>, js2: seq<nat>)
    requires |js1| == |js2| > 0
    requires js1[..|js1| - 1] == js2[..|js2| - 1] && js1[|js1| - 1] == js2[|js2| - 1]
    ensures js1 == js2
  {
    SplitLast(js1);
    SplitLast(js2);
  }

  /** One element leaves one choice: itself. */
  lemma OnlyChoice(js: seq<nat>)
    requires ValidChoices(js, 1)
    ensures js == [0]
  {
    assert js == [js[0]];
  }

  /** On distinct elements, different choice sequences give different orders. Together with
      `EveryPermutationReachable` this makes the shuffle a one-to-one correspondence between
      choice sequences and orderings. */
  lemma {:induction false} ChoicesDetermineOrder<T>(s: seq<T>, js1: seq<nat>, js2: seq<nat>)
    requires Distinct(s)
    requires ValidChoices(js1, |s|) && ValidChoices(js2, |s|)
    requires Shuffle(s, js1) == Shuffle(s, js2)
    ensures js1 == js2
    decreases |s|
  {
    if |s| == 1 {
      OnlyChoice(js1);
      OnlyChoice(js2);
    } else if |s| > 1 {
      var i := |s| - 1;
      var rest := LastChoiceAgrees(s, js1, js2);
      ChoicesDetermineOrder(rest, js1[..i], js2[..i]);
      SameLastSamePrefix(js1, js2);
    }
  }
}
