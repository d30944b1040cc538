/** The static catalog of the quiz: the `stateNames` table that maps two-digit FIPS codes
    to display names, and the `fiftyStates` list derived from it by dropping the District
    of Columbia. */
module Catalog {

  /** An entry of the catalog: a FIPS code (the table key) and the display name. */
  datatype StateEntry = StateEntry(fips: string, name: string)

  datatype Option<T> = None | Some(value: T)

  /** The `stateNames` object literal in the order it is written, in three parts (Alabama to
      Maine, Maryland to Ohio, Oklahoma to Wyoming) so that each part can be reasoned about on
      its own. Each key is kept as its numeric value; `Fips` renders it back to the two-digit
      key. */
  const NameTable: seq<(nat, string)> := AlabamaToMaine + MarylandToOhio + OklahomaToWyoming

  const AlabamaToMaine: seq<(nat, string)> :=
    [(1, "Alabama"), (2, "Alaska"), (4, "Arizona"), (5, "Arkansas")] +
    [(6, "California"), (8, "Colorado"), (9, "Connecticut"), (10, "Delaware")] +
    [(11, "District of Columbia"), (12, "Florida"), (13, "Georgia"), (15, "Hawaii")] +
    [(16, "Idaho"), (17, "Illinois"), (18, "Indiana"), (19, "Iowa")] +
    [(20, "Kansas"), (21, "Kentucky"), (22, "Louisiana"), (23, "Maine")]

  const MarylandToOhio: seq<(nat, string)> :=
    [(24, "Maryland"), (25, "Massachusetts"), (26, "Michigan"), (27, "Minnesota")] +
    [(28, "Mississippi"), (29, "Missouri"), (30, "Montana"), (31, "Nebraska")] +
    [(32, "Nevada"), (33, "New Hampshire"), (34, "New Jersey"), (35, "New Mexico")] +
    [(36, "New York"), (37, "North Carolina"), (38, "North Dakota"), (39, "Ohio")]

  const OklahomaToWyoming: seq<(nat, string)> :=
    [(40, "Oklahoma"), (41, "Oregon"), (42, "Pennsylvania"), (44, "Rhode Island")] +
    [(45, "South Carolina"), (46, "South Dakota"), (47, "Tennessee"), (48, "Texas")] +
    [(49, "Utah"), (50, "Vermont"), (51, "Virginia"), (53, "Washington")] +
    [(54, "West Virginia"), (55, "Wisconsin"), (56, "Wyoming")]

  /** The key of the District of Columbia, the one table entry that is not a state. */
  const DistrictFips: string := "11"

  function Digit(d: nat): char
    requires d < 10
  {
    ('0' as int + d) as char
  }

  /** The two-digit key string of a numeric code, with a leading zero below 10 ("01", "56"). */
  function Fips(code: nat): (f: string)
    requires code < 100
    ensures |f| == 2 && '0' <= f[0] <= '9' && '0' <= f[1] <= '9'
    ensures (f[0] as int - '0' as int) * 10 + (f[1] as int - '0' as int) == code
  {
    [Digit(code / 10), Digit(code % 10)]
  }

  predicate KeysBelow100(t: seq<(nat, string)>)
  {
    forall e :: e in t ==> e.0 < 100
  }

  /** Strictly ascending keys, stated pairwise. */
  predicate Ascending(t: seq<(nat, string)>)
  {
    forall i, j :: 0 <= i < j < |t| ==> t[i].0 < t[j].0
  }

  /** Strictly ascending keys, stated between neighbours only. */
  predicate AscendingNeighbours(t: seq<(nat, string)>)
  {
    forall i :: 0 < i < |t| ==> t[i - 1].0 < t[i].0
  }

  /** No two entries share a key. */
  predicate DistinctFips(s: seq<StateEntry>)
  {
    forall i, j :: 0 <= i < j < |s| ==> s[i].fips != s[j].fips
  }

  /** The entries of a table, each key rendered as its two-digit string. */
  function AsEntries(t: seq<(nat, string)>): (r: seq<StateEntry>)
    requires KeysBelow100(t)
    ensures |r| == |t|
    ensures forall i :: 0 <= i < |t| ==> r[i] == StateEntry(Fips(t[i].0), t[i].1)
  {
    if t == [] then [] else [StateEntry(Fips(t[0].0), t[0].1)] + AsEntries(t[1..])
  }

  /** The elements of `s` that satisfy `p`, in their original order (`Array.prototype.filter`). */
  function Filter<T(!new)>(s: seq<T>, p: T -> bool): (r: seq<T>)
    ensures |r| <= |s|
    ensures forall x :: x in r <==> x in s && p(x)
    decreases |s|
  {
    if s == [] then []
    else (if p(s[0]) then [s[0]] else []) + Filter(s[1..], p)
  }

  /** A key is an array index in JavaScript's sense when it is the canonical decimal form of
      a number; for the table's two-digit keys that means no leading zero: "10".."56" are,
      "01".."09" are not. */
  function IsIndexKey(e: StateEntry): (b: bool)
    ensures |e.fips| == 2 && '0' <= e.fips[0] <= '9' && '0' <= e.fips[1] <= '9' ==>
      (b <==> (e.fips[0] as int - '0' as int) * 10 + (e.fips[1] as int - '0' as int) >= 10)
  {
    |e.fips| > 0 && e.fips[0] != '0'
  }

  predicate IsPlainKey(e: StateEntry)
  {
    !IsIndexKey(e)
  }

  /** `Object.entries` of an object literal whose keys are written in ascending order: the
      array-index keys come first in ascending numeric order, then the remaining keys in
      insertion order. The result holds every entry of the literal exactly once. */
  function ObjectEntries(t: seq<(nat, string)>): (r: seq<StateEntry>)
    requires KeysBelow100(t) && Ascending(t)
    ensures multiset(r) == multiset(AsEntries(t))
  {
    var es := AsEntries(t);
    FilterPartition(es, IsIndexKey, IsPlainKey);
    Filter(es, IsIndexKey) + Filter(es, IsPlainKey)
  }

  /** The `stateNames` object as JavaScript enumerates it. */
  const StateNames: seq<StateEntry> := (TableWellFormed(); ObjectEntries(NameTable))

  predicate NotDistrict(e: StateEntry)
  {
    e.fips != DistrictFips
  }

  /** `fiftyStates`: the enumerated table without the District of Columbia. */
  const FiftyStates: seq<StateEntry> := Filter(StateNames, NotDistrict)

  /** The FIPS keys of a list of entries. */
  function FipsOf(s: seq<StateEntry>): set<string>
  {
    set e | e in s :: e.fips
  }

  /** The first entry of `s` under key `fips`, as a property read `stateNames[fips]`. */
  function Find(s: seq<StateEntry>, fips: string): (r: Option<string>)
    ensures r.None? <==> fips !in FipsOf(s)
    ensures r.Some? ==> StateEntry(fips, r.value) in s
  {
    if s == [] then None
    else if s[0].fips == fips then Some(s[0].name)
    else Find(s[1..], fips)
  }

  /** `stateNames[fips]`: the name under a key, or `None` where JavaScript reads `undefined`. */
  function StateName(fips: string): Option<string>
  {
    Find(StateNames, fips)
  }

  // ---------------------------------------------------------------------------------------
  // Generic facts about the helpers above.

  lemma {:induction false} NeighboursAscending(t: seq<(nat, string)>)
    requires AscendingNeighbours(t)
    ensures Ascending(t)
    decreases |t|
  {
    if |t| > 1 {
      var init := t[..|t| - 1];
      assert AscendingNeighbours(init);
      NeighboursAscending(init);
      forall i, j | 0 <= i < j < |t|
        ensures t[i].0 < t[j].0
      {
        if j < |t| - 1 {
          assert init[i] == t[i] && init[j] == t[j];
        } else if i < j - 1 {
          assert init[i] == t[i] && init[j - 1] == t[j - 1];
        }
      }
    }
  }

  lemma NeighboursAppend(a: seq<(nat, string)>, b: seq<(nat, string)>)
    requires AscendingNeighbours(a) && AscendingNeighbours(b)
    requires a != [] && b != [] && a[|a| - 1].0 < b[0].0
    ensures AscendingNeighbours(a + b)
  {
    forall i | 0 < i < |a + b|
      ensures (a + b)[i - 1].0 < (a + b)[i].0
    {
      if i < |a| {
        assert (a + b)[i - 1] == a[i - 1] && (a + b)[i] == a[i];
      } else if i == |a| {
        assert (a + b)[i - 1] == a[|a| - 1] && (a + b)[i] == b[0];
      } else {
        assert (a + b)[i - 1] == b[i - 1 - |a|] && (a + b)[i] == b[i - |a|];
      }
    }
  }

  lemma {:induction false} AsEntriesMembership(t: seq<(nat, string)>)
    requires KeysBelow100(t)
    ensures forall e :: e in AsEntries(t) <==> exists i :: 0 <= i < |t| && e == StateEntry(Fips(t[i].0), t[i].1)
  {
    var r := AsEntries(t);
    forall e | e in r
      ensures exists i :: 0 <= i < |t| && e == StateEntry(Fips(t[i].0), t[i].1)
    {
      var i :| 0 <= i < |r| && r[i] == e;
      assert e == StateEntry(Fips(t[i].0), t[i].1);
    }
    forall e | exists i :: 0 <= i < |t| && e == StateEntry(Fips(t[i].0), t[i].1)
      ensures e in r
    {
      var i :| 0 <= i < |t| && e == StateEntry(Fips(t[i].0), t[i].1);
      assert r[i] == e;
    }
  }

  lemma AsEntriesAppend(a: seq<(nat, string)>, b: seq<(nat, string)>)
    requires KeysBelow100(a) && KeysBelow100(b)
    ensures KeysBelow100(a + b)
    ensures AsEntries(a + b) == AsEntries(a) + AsEntries(b)
  {
    assert forall i :: 0 <= i < |a| ==> (a + b)[i] == a[i];
    assert forall i :: |a| <= i < |a| + |b| ==> (a + b)[i] == b[i - |a|];
  }

  /** Filtering with `p` and with its negation splits a sequence into two parts that
      together hold its elements, each as often as before. */
  lemma {:induction false} FilterPartition<T(!new)>(s: seq<T>, p: T -> bool, q: T -> bool)
    requires forall x :: q(x) == !p(x)
    ensures multiset(Filter(s, p)) + multiset(Filter(s, q)) == multiset(s)
    decreases |s|
  {
    if s != [] {
      var x, rest := s[0], s[1..];
      FilterPartition(rest, p, q);
      var a, b := Filter(rest, p), Filter(rest, q);
      assert multiset(s) == multiset{x} + multiset(rest) by {
        assert s == [x] + rest;
      }
      if p(x) {
        assert Filter(s, p) == [x] + a && Filter(s, q) == b;
        assert multiset([x] + a) == multiset{x} + multiset(a);
      } else {
        assert Filter(s, p) == a && Filter(s, q) == [x] + b;
        assert multiset([x] + b) == multiset{x} + multiset(b);
      }
    }
  }

  lemma {:induction false} FilterAppend<T(!new)>(a: seq<T>, b: seq<T>, p: T -> bool)
    ensures Filter(a + b, p) == Filter(a, p) + Filter(b, p)
    decreases |a|
  {
    if a == [] {
      assert a + b == b;
    } else {
      assert (a + b)[1..] == a[1..] + b;
      FilterAppend(a[1..], b, p);
    }
  }

  lemma {:induction false} FilterKeepsAll<T(!new)>(s: seq<T>, p: T -> bool)
    requires forall x :: x in s ==> p(x)
    ensures Filter(s, p) == s
    decreases |s|
  {
    if s != [] {
      var rest := s[1..];
      forall x | x in rest
        ensures p(x)
      {
        var i :| 0 <= i < |rest| && rest[i] == x;
        assert s[i + 1] == x;
      }
      FilterKeepsAll(rest, p);
      assert s[0] in s;
      assert Filter(s, p) == [s[0]] + rest;
      assert [s[0]] + rest == s;
    }
  }

  lemma {:induction false} FilterDropsAll<T(!new)>(s: seq<T>, p: T -> bool)
    requires forall x :: x in s ==> !p(x)
    ensures Filter(s, p) == []
    decreases |s|
  {
    if s != [] {
      var rest := s[1..];
      forall x | x in rest
        ensures !p(x)
      {
        var i :| 0 <= i < |rest| && rest[i] == x;
        assert s[i + 1] == x;
      }
      FilterDropsAll(rest, p);
      assert s[0] in s;
    }
  }

  lemma {:induction false} DistinctCodesDistinctFips(t: seq<(nat, string)>)
    requires KeysBelow100(t)
    requires forall i, j :: 0 <= i < j < |t| ==> t[i].0 != t[j].0
    ensures DistinctFips(AsEntries(t))
  {
    var r := AsEntries(t);
    forall i, j | 0 <= i < j < |r|
      ensures r[i].fips != r[j].fips
    {
      var a, b := Fips(t[i].0), Fips(t[j].0);
      assert r[i].fips == a && r[j].fips == b;
      assert (a[0] as int - '0' as int) * 10 + (a[1] as int - '0' as int) == t[i].0;
    }
  }

  lemma {:induction false} FindDistinct(s: seq<StateEntry>, e: StateEntry)
    requires DistinctFips(s)
    ensures e in s <==> Find(s, e.fips) == Some(e.name)
    decreases |s|
  {
    if s != [] {
      assert DistinctFips(s[1..]) by {
        forall i, j | 0 <= i < j < |s[1..]|
          ensures s[1..][i].fips != s[1..][j].fips
        {
          assert s[1..][i] == s[i + 1] && s[1..][j] == s[j + 1];
        }
      }
      FindDistinct(s[1..], e);
      if s[0].fips == e.fips {
        forall k | 0 <= k < |s[1..]|
          ensures s[1..][k].fips != e.fips
        {
          assert s[1..][k] == s[k + 1];
        }
      }
    }
  }

  // ---------------------------------------------------------------------------------------
  // Facts about any table shaped like `stateNames`.

  /** The shape of the `stateNames` literal: 51 two-digit keys in ascending order, the last
      one below 10 at position 6, Delaware ("10") at 7 and the District of Columbia at 8. */
  predicate TableShape(t: seq<(nat, string)>)
  {
    && |t| == 51 && KeysBelow100(t) && Ascending(t)
    && t[6].0 == 9 && t[7].0 == 10 && t[8].0 == 11
  }

  lemma FipsLeadingZero(code: nat)
    requires code < 100
    ensures Fips(code)[0] == '0' <==> code < 10
  {
  }

  lemma {:induction false} KeyKinds(t: seq<(nat, string)>, k: nat)
    requires KeysBelow100(t) && k <= |t|
    requires forall i :: 0 <= i < k ==> t[i].0 < 10
    requires forall i :: k <= i < |t| ==> t[i].0 >= 10
    ensures KeysBelow100(t[..k]) && KeysBelow100(t[k..])
    ensures forall e :: e in AsEntries(t[..k]) ==> IsPlainKey(e)
    ensures forall e :: e in AsEntries(t[k..]) ==> IsIndexKey(e)
  {
    var lo, hi := AsEntries(t[..k]), AsEntries(t[k..]);
    forall e | e in lo
      ensures IsPlainKey(e)
    {
      var i :| 0 <= i < |lo| && lo[i] == e;
      assert t[..k][i] == t[i];
      FipsLeadingZero(t[i].0);
    }
    forall e | e in hi
      ensures IsIndexKey(e)
    {
      var i :| 0 <= i < |hi| && hi[i] == e;
      assert t[k..][i] == t[k + i];
      FipsLeadingZero(t[k + i].0);
    }
  }

  /** For a table whose first `k` keys are below 10 and the rest are not, `Object.entries`
      moves the first `k` entries to the back. */
  lemma {:induction false} ObjectEntriesRotates(t: seq<(nat, string)>, k: nat)
    requires KeysBelow100(t) && Ascending(t)
    requires k <= |t|
    requires forall i :: 0 <= i < k ==> t[i].0 < 10
    requires forall i :: k <= i < |t| ==> t[i].0 >= 10
    ensures KeysBelow100(t[k..] + t[..k])
    ensures ObjectEntries(t) == AsEntries(t[k..] + t[..k])
  {
    KeyKinds(t, k);
    assert t == t[..k] + t[k..];
    AsEntriesAppend(t[..k], t[k..]);
    var lo, hi := AsEntries(t[..k]), AsEntries(t[k..]);
    var es := AsEntries(t);
    assert es == lo + hi;
    assert Filter(es, IsIndexKey) == hi by {
      FilterAppend(lo, hi, IsIndexKey);
      FilterDropsAll(lo, IsIndexKey);
      FilterKeepsAll(hi, IsIndexKey);
    }
    assert Filter(es, IsPlainKey) == lo by {
      FilterAppend(lo, hi, IsPlainKey);
      FilterKeepsAll(lo, IsPlainKey);
      FilterDropsAll(hi, IsPlainKey);
    }
    AsEntriesAppend(t[k..], t[..k]);
  }

  /** The enumeration order of such a table: Delaware ("10") first, then the other array-index
      keys ascending, then "01".."09". */
  lemma EnumerationOrder(t: seq<(nat, string)>)
    requires TableShape(t)
    ensures KeysBelow100(t[7..] + t[..7])
    ensures ObjectEntries(t) == AsEntries(t[7..] + t[..7])
  {
    assert forall i :: 0 <= i < 7 ==> t[i].0 <= t[6].0;
    assert forall i :: 7 <= i < |t| ==> t[i].0 >= t[7].0;
    ObjectEntriesRotates(t, 7);
  }

  /** Keys of a rotated ascending table are still pairwise different. */
  lemma RotationDistinct(t: seq<(nat, string)>, k: nat)
    requires Ascending(t) && k <= |t|
    ensures forall i, j :: 0 <= i < j < |t| ==> (t[k..] + t[..k])[i].0 != (t[k..] + t[..k])[j].0
  {
    var u := t[k..] + t[..k];
    forall i, j | 0 <= i < j < |t|
      ensures u[i].0 != u[j].0
    {
      var i' := if i < |t| - k then k + i else i - (|t| - k);
      var j' := if j < |t| - k then k + j else j - (|t| - k);
      assert u[i] == t[i'] && u[j] == t[j'];
      assert i' != j';
    }
  }

  /** Filtering out the one element that fails `p` removes exactly that position. */
  lemma FilterDropsOne<T(!new)>(s: seq<T>, k: nat, p: T -> bool)
    requires k < |s| && !p(s[k])
    requires forall i :: 0 <= i < |s| && i != k ==> p(s[i])
    ensures Filter(s, p) == s[..k] + s[k + 1..]
  {
    var a, b := s[..k], s[k + 1..];
    assert s == a + [s[k]] + b;
    assert Filter(a, p) == a by {
      forall x | x in a ensures p(x) {
        var i :| 0 <= i < |a| && a[i] == x;
        assert s[i] == x;
      }
      FilterKeepsAll(a, p);
    }
    assert Filter(b, p) == b by {
      forall x | x in b ensures p(x) {
        var i :| 0 <= i < |b| && b[i] == x;
        assert s[k + 1 + i] == x;
      }
      FilterKeepsAll(b, p);
    }
    assert Filter([s[k]], p) == [] by {
      FilterDropsAll([s[k]], p);
    }
    assert Filter(a + [s[k]], p) == a by {
      FilterAppend(a, [s[k]], p);
    }
    FilterAppend(a + [s[k]], b, p);
  }

  /** The enumerated table has distinct keys and the District of Columbia at position 1. */
  lemma EnumerationDistinct(t: seq<(nat, string)>)
    requires TableShape(t)
    ensures |ObjectEntries(t)| == 51
    ensures DistinctFips(ObjectEntries(t))
    ensures ObjectEntries(t)[1].fips == DistrictFips
    ensures forall i :: 0 <= i < 51 && i != 1 ==> ObjectEntries(t)[i].fips != DistrictFips
  {
    EnumerationOrder(t);
    var es := ObjectEntries(t);
    var u := t[7..] + t[..7];
    RotationDistinct(t, 7);
    DistinctCodesDistinctFips(u);
    assert u[1] == t[8];
    forall i | 0 <= i < 51 && i != 1
      ensures es[i].fips != DistrictFips
    {
      assert es[i].fips == Fips(u[i].0);
      if i < 1 {
        assert u[i].0 != u[1].0;
      } else {
        assert u[1].0 != u[i].0;
      }
    }
  }

  /** Dropping the District of Columbia from the enumeration removes its second entry. */
  lemma WithoutDistrictOrder(t: seq<(nat, string)>)
    requires TableShape(t)
    ensures |ObjectEntries(t)| == 51
    ensures Filter(ObjectEntries(t), NotDistrict) == ObjectEntries(t)[..1] + ObjectEntries(t)[2..]
  {
    EnumerationDistinct(t);
    FilterDropsOne(ObjectEntries(t), 1, NotDistrict);
  }

  /** Removing one entry keeps the keys distinct. */
  lemma DropOneKeepsDistinct(s: seq<StateEntry>, k: nat)
    requires DistinctFips(s) && k < |s|
    ensures DistinctFips(s[..k] + s[k + 1..])
  {
    var r := s[..k] + s[k + 1..];
    forall i, j | 0 <= i < j < |r|
      ensures r[i].fips != r[j].fips
    {
      var i' := if i < k then i else i + 1;
      var j' := if j < k then j else j + 1;
      assert r[i] == s[i'] && r[j] == s[j'];
    }
  }

  lemma WithoutDistrictDistinct(t: seq<(nat, string)>)
    requires TableShape(t)
    ensures |Filter(ObjectEntries(t), NotDistrict)| == 50
    ensures DistinctFips(Filter(ObjectEntries(t), NotDistrict))
  {
    EnumerationDistinct(t);
    WithoutDistrictOrder(t);
    DropOneKeepsDistinct(ObjectEntries(t), 1);
  }

  /** Without the District of Columbia the enumeration has fifty entries with distinct keys,
      and they are exactly the entries that a key lookup finds, less the District. */
  lemma WithoutDistrictFacts(t: seq<(nat, string)>)
    requires TableShape(t)
    ensures |Filter(ObjectEntries(t), NotDistrict)| == 50
    ensures DistinctFips(Filter(ObjectEntries(t), NotDistrict))
    ensures forall e :: e in Filter(ObjectEntries(t), NotDistrict) <==>
      e.fips != DistrictFips && Find(ObjectEntries(t), e.fips) == Some(e.name)
  {
    EnumerationDistinct(t);
    WithoutDistrictDistinct(t);
    var es := ObjectEntries(t);
    var fs := Filter(es, NotDistrict);
    forall e
      ensures e in fs <==> e.fips != DistrictFips && Find(es, e.fips) == Some(e.name)
    {
      FindDistinct(es, e);
    }
  }

  // ---------------------------------------------------------------------------------------
  // Facts about the concrete table.

  lemma AlabamaToMaineShape()
    ensures |AlabamaToMaine| == 20 && AscendingNeighbours(AlabamaToMaine)
    ensures forall i :: 0 <= i < 20 ==> AlabamaToMaine[i].0 < 100
    ensures AlabamaToMaine[6].0 == 9 && AlabamaToMaine[7].0 == 10 && AlabamaToMaine[8].0 == 11
    ensures AlabamaToMaine[19].0 == 23
  {
  }

  lemma MarylandToOhioShape()
    ensures |MarylandToOhio| == 16 && AscendingNeighbours(MarylandToOhio)
    ensures forall i :: 0 <= i < 16 ==> MarylandToOhio[i].0 < 100
    ensures MarylandToOhio[0].0 == 24 && MarylandToOhio[15].0 == 39
  {
  }

  lemma OklahomaToWyomingShape()
    ensures |OklahomaToWyoming| == 15 && AscendingNeighbours(OklahomaToWyoming)
    ensures forall i :: 0 <= i < 15 ==> OklahomaToWyoming[i].0 < 100
    ensures OklahomaToWyoming[0].0 == 40
  {
  }

  /** Three parts with ascending keys below 100, each part's keys above the previous part's,
      make one such table. */
  lemma ConcatShape(a: seq<(nat, string)>, b: seq<(nat, string)>, c: seq<(nat, string)>)
    requires |a| == 20 && AscendingNeighbours(a) && forall i :: 0 <= i < 20 ==> a[i].0 < 100
    requires |b| == 16 && AscendingNeighbours(b) && forall i :: 0 <= i < 16 ==> b[i].0 < 100
    requires |c| == 15 && AscendingNeighbours(c) && forall i :: 0 <= i < 15 ==> c[i].0 < 100
    requires a[6].0 == 9 && a[7].0 == 10 && a[8].0 == 11
    requires a[19].0 < b[0].0 && b[15].0 < c[0].0
    ensures TableShape(a + b + c)
  {
    NeighboursAppend(a, b);
    NeighboursAppend(a + b, c);
    var t := a + b + c;
    NeighboursAscending(t);
    forall e | e in t
      ensures e.0 < 100
    {
      var i :| 0 <= i < |t| && t[i] == e;
      if i < 20 {
        assert t[i] == a[i];
      } else if i < 36 {
        assert t[i] == b[i - 20];
      } else {
        assert t[i] == c[i - 36];
      }
    }
    assert t[6] == a[6] && t[7] == a[7] && t[8] == a[8];
  }

  lemma TableWellFormed()
    ensures TableShape(NameTable)
  {
    AlabamaToMaineShape();
    MarylandToOhioShape();
    OklahomaToWyomingShape();
    ConcatShape(AlabamaToMaine, MarylandToOhio, OklahomaToWyoming);
  }

  /** The catalog facts the session relies on: fifty states, no FIPS key twice, the District
      of Columbia excluded, and exactly the table's other entries. */
  lemma FiftyStatesFacts()
    ensures |FiftyStates| == 50
    ensures DistinctFips(FiftyStates)
    ensures forall e :: e in FiftyStates <==> e.fips != DistrictFips && StateName(e.fips) == Some(e.name)
  {
    TableWellFormed();
    WithoutDistrictFacts(NameTable);
  }

  /** `fiftyStates` in order: the enumerated table with its second entry ("11") removed. */
  lemma FiftyStatesOrder()
    ensures |StateNames| == 51 && FiftyStates == StateNames[..1] + StateNames[2..]
  {
    TableWellFormed();
    WithoutDistrictOrder(NameTable);
  }

  /** `stateNames` in enumeration order: Delaware first, Alabama through Connecticut last. */
  lemma StateNamesOrder()
    ensures KeysBelow100(NameTable[7..] + NameTable[..7])
    ensures StateNames == AsEntries(NameTable[7..] + NameTable[..7])
  {
    TableWellFormed();
    EnumerationOrder(NameTable);
  }
}
