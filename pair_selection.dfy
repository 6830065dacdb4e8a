/**
 * `getPairsToCompare` (src/lib/actions.ts): the candidate pool, the nested loop
 * that pairs up the selected user's closest people, and the choice of two pairs
 * from a shuffled pool. The shuffle is a parameter: any permutation of its input.
 */
module PairSelection {
  import opened Wrappers
  import opened Sorting
  import opened Store

  /** Only edges scoring above this link someone to the selected user's closest people. */
  const ClosenessThreshold: int := 1240
  /** At most this many closest people (`LIMIT 5`). */
  const ClosestLimit: nat := 5

  /** A candidate pair, in the orientation its query returned it. */
  datatype NamePair = NamePair(person1: string, person2: string)

  datatype ComparisonPair = ComparisonPair(pair1: NamePair, pair2: NamePair)

  datatype SelectionError =
    | NotEnoughPeople   // "Not enough people to create two comparison pairs"
    | EmptyPoolCrash    // the biased pool is empty: `shuffled[0]` is undefined and the code throws a TypeError

  /** The negation of `isDifferentPair`: the same two people in either order. */
  predicate SameUnordered(p: NamePair, q: NamePair)
  {
    || (p.person1 == q.person1 && p.person2 == q.person2)
    || (p.person1 == q.person2 && p.person2 == q.person1)
  }

  /** The two people of a pair, regardless of order; for a stored pair, the key of its edge. */
  function Names(p: NamePair): set<string>
  {
    Link(p.person1, p.person2)
  }

  /** The order-insensitive comparison is exactly equality of the two name sets. */
  lemma SameUnorderedIsSameNames(p: NamePair, q: NamePair)
    ensures SameUnordered(p, q) <==> Names(p) == Names(q)
  {
    if Names(p) == Names(q) {
      assert p.person1 in Names(q) && p.person2 in Names(q);
      assert q.person1 in Names(p) && q.person2 in Names(p);
    }
  }

  // ---------------------------------------------------------------------------
  // All pairs (s[i], s[j]) with i < j

  /** `(s[i], s[k])` for `j <= k < |s|`: one pass of the inner loop from `j`. */
  function RowPairs(s: seq<string>, i: nat, j: nat): seq<NamePair>
    requires i < |s|
    decreases |s| - j
  {
    if j >= |s| then [] else [NamePair(s[i], s[j])] + RowPairs(s, i, j + 1)
  }

  /** The pairs the two nested loops produce from outer index `i` on. */
  function CombinationsFrom(s: seq<string>, i: nat): seq<NamePair>
    decreases |s| - i
  {
    if i >= |s| then [] else RowPairs(s, i, i + 1) + CombinationsFrom(s, i + 1)
  }

  /** Every `(s[i], s[j])` with `i < j`, in nested-loop order. */
  function Combinations(s: seq<string>): seq<NamePair>
  {
    CombinationsFrom(s, 0)
  }

  /** The nested `for` loops that build `indirectRelationships`. */
  method PairUp(closest: seq<string>) returns (pairs: seq<NamePair>)
    ensures pairs == Combinations(closest)
  {
    pairs := [];
    for i := 0 to |closest|
      invariant pairs + CombinationsFrom(closest, i) == Combinations(closest)
    {
      for j := i + 1 to |closest|
        invariant pairs + RowPairs(closest, i, j) + CombinationsFrom(closest, i + 1) == Combinations(closest)
      {
        assert RowPairs(closest, i, j) == [NamePair(closest[i], closest[j])] + RowPairs(closest, i, j + 1);
        pairs := pairs + [NamePair(closest[i], closest[j])];
      }
    }
  }

  lemma {:induction false} RowPairsCount(s: seq<string>, i: nat, j: nat)
    requires i < |s| && j <= |s|
    ensures |RowPairs(s, i, j)| == |s| - j
    decreases |s| - j
  {
    if j < |s| {
      RowPairsCount(s, i, j + 1);
    }
  }

  lemma {:induction false} CombinationsFromCount(s: seq<string>, i: nat)
    requires i <= |s|
    ensures |CombinationsFrom(s, i)| == (|s| - i) * (|s| - i - 1) / 2
    decreases |s| - i
  {
    if i < |s| {
      RowPairsCount(s, i, i + 1);
      CombinationsFromCount(s, i + 1);
      var n := |s| - i;
      assert n * (n - 1) == 2 * (n - 1) + (n - 1) * (n - 2);
    }
  }

  /** k people give exactly k(k-1)/2 pairs. */
  lemma CombinationsCount(s: seq<string>)
    ensures |Combinations(s)| == |s| * (|s| - 1) / 2
  {
    CombinationsFromCount(s, 0);
  }

  /** At most five closest people give at most ten pairs. */
  lemma CombinationsOfFiveAtMostTen(s: seq<string>)
    requires |s| <= ClosestLimit
    ensures |Combinations(s)| <= 10
  {
    CombinationsCount(s);
    var n := |s|;
    assert n * (n - 1) <= 5 * 4 by {
      assert n - 1 <= 4;
    }
  }

  lemma {:induction false} RowPairsMembers(s: seq<string>, i: nat, j: nat)
    requires i < |s|
    ensures forall p :: p in RowPairs(s, i, j) <==> exists b :: j <= b < |s| && p == NamePair(s[i], s[b])
    decreases |s| - j
  {
    if j < |s| {
      RowPairsMembers(s, i, j + 1);
    }
  }

  lemma {:induction false} CombinationsFromMembers(s: seq<string>, i: nat)
    ensures forall p :: p in CombinationsFrom(s, i) <==>
              exists a, b :: i <= a < b < |s| && p == NamePair(s[a], s[b])
    decreases |s| - i
  {
    if i < |s| {
      RowPairsMembers(s, i, i + 1);
      CombinationsFromMembers(s, i + 1);
      assert CombinationsFrom(s, i) == RowPairs(s, i, i + 1) + CombinationsFrom(s, i + 1);
      forall p | p in CombinationsFrom(s, i)
        ensures exists a, b :: i <= a < b < |s| && p == NamePair(s[a], s[b])
      {
        if p in RowPairs(s, i, i + 1) {
          var b :| i + 1 <= b < |s| && p == NamePair(s[i], s[b]);
          assert i <= i < b < |s| && p == NamePair(s[i], s[b]);
        } else {
          var a, b :| i + 1 <= a < b < |s| && p == NamePair(s[a], s[b]);
          assert i <= a < b < |s| && p == NamePair(s[a], s[b]);
        }
      }
      forall p | (exists a, b :: i <= a < b < |s| && p == NamePair(s[a], s[b]))
        ensures p in CombinationsFrom(s, i)
      {
        var a, b :| i <= a < b < |s| && p == NamePair(s[a], s[b]);
        if a == i {
          assert p in RowPairs(s, i, i + 1);
        } else {
          assert p in CombinationsFrom(s, i + 1);
        }
      }
    }
  }

  /** A pair is a combination exactly when it is `(s[i], s[j])` for some `i < j`. */
  lemma CombinationsMembers(s: seq<string>)
    ensures forall p :: p in Combinations(s) <==> exists i, j :: 0 <= i < j < |s| && p == NamePair(s[i], s[j])
  {
    CombinationsFromMembers(s, 0);
  }

  lemma {:induction false} RowPairsDistinct(s: seq<string>, i: nat, j: nat)
    requires i < j && i < |s| && Distinct(s)
    ensures DistinctBy(RowPairs(s, i, j), Names)
    decreases |s| - j
  {
    if j < |s| {
      RowPairsDistinct(s, i, j + 1);
      RowPairsMembers(s, i, j + 1);
      var r := RowPairs(s, i, j);
      forall b | 0 < b < |r| ensures Names(r[0]) != Names(r[b]) {
        assert r[b] in RowPairs(s, i, j + 1);
        var c :| j + 1 <= c < |s| && r[b] == NamePair(s[i], s[c]);
        assert s[j] in Names(r[0]) && s[j] != s[i] && s[j] != s[c];
      }
      forall a, b | 0 <= a < b < |r| ensures Names(r[a]) != Names(r[b]) {
        if a > 0 {
          assert r[a] == RowPairs(s, i, j + 1)[a - 1] && r[b] == RowPairs(s, i, j + 1)[b - 1];
        }
      }
    }
  }

  lemma {:induction false} CombinationsFromDistinct(s: seq<string>, i: nat)
    requires Distinct(s)
    ensures DistinctBy(CombinationsFrom(s, i), Names)
    decreases |s| - i
  {
    if i < |s| {
      var row := RowPairs(s, i, i + 1);
      var rest := CombinationsFrom(s, i + 1);
      RowPairsDistinct(s, i, i + 1);
      CombinationsFromDistinct(s, i + 1);
      RowPairsMembers(s, i, i + 1);
      CombinationsFromMembers(s, i + 1);
      var c := row + rest;
      forall a, b | 0 <= a < b < |c| ensures Names(c[a]) != Names(c[b]) {
        if b < |row| {
          assert c[a] == row[a] && c[b] == row[b];
        } else if a >= |row| {
          assert c[a] == rest[a - |row|] && c[b] == rest[b - |row|];
        } else {
          assert c[a] == row[a] && c[b] == rest[b - |row|];
          assert c[b] in rest;
          var x, y :| i + 1 <= x < y < |s| && c[b] == NamePair(s[x], s[y]);
          assert c[a] in row;
          assert s[i] in Names(c[a]) && s[i] != s[x] && s[i] != s[y];
        }
      }
    }
  }

  /** Over distinct names, no two combinations are the same pair in either order. */
  lemma CombinationsDistinct(s: seq<string>)
    requires Distinct(s)
    ensures DistinctBy(Combinations(s), Names)
  {
    CombinationsFromDistinct(s, 0);
  }

  // ---------------------------------------------------------------------------
  // The candidate pool of the biased branch

  /** `MATCH (selected:Person {name: $selectedUser}), (other:Person) WHERE selected <> other`:
      the selected user with every other person, none when the user does not exist. */
  function DirectPairs(store: RelationshipStore, selected: string): (r: seq<NamePair>)
    reads store
    ensures forall p :: p in r <==>
              selected in store.people && p.person1 == selected && p.person2 in store.people && p.person2 != selected
    ensures store.Valid() && selected in store.people ==> |r| == |store.people| - 1
  {
    if selected in store.people then
      var others := Without(store.people, selected);
      var r := seq(|others|, k requires 0 <= k < |others| => NamePair(selected, others[k]));
      assert forall p :: p in r ==> p.person2 in others;
      assert forall o :: o in others ==> NamePair(selected, o) in r by {
        forall o | o in others ensures NamePair(selected, o) in r {
          var k :| 0 <= k < |others| && others[k] == o;
          assert r[k] == NamePair(selected, o);
        }
      }
      r
    else []
  }

  /** `WHERE r.closeness_score > 1240` on rows already ordered by score. */
  function AboveThreshold(rows: seq<Relationship>): (r: seq<Relationship>)
    ensures forall x :: x in r <==> x in rows && x.closenessScore > ClosenessThreshold
    ensures SortedBy(rows, ScoreAtLeast) ==> SortedBy(r, ScoreAtLeast)
    ensures DistinctBy(rows, Other) ==> DistinctBy(r, Other)
    ensures (forall x :: x in rows ==> x.closenessScore <= ClosenessThreshold) ==> r == []
  {
    if rows == [] then []
    else
      var rest := AboveThreshold(rows[1..]);
      assert forall x :: x in rows[1..] ==> x in rows;
      KeepHead(rows, rest);
      if rows[0].closenessScore > ClosenessThreshold then [rows[0]] + rest else rest
  }

  /** Order and distinct keys survive dropping later rows and keeping the head. */
  lemma KeepHead(rows: seq<Relationship>, rest: seq<Relationship>)
    requires rows != []
    requires forall x :: x in rest ==> x in rows[1..]
    requires SortedBy(rows[1..], ScoreAtLeast) ==> SortedBy(rest, ScoreAtLeast)
    requires DistinctBy(rows[1..], Other) ==> DistinctBy(rest, Other)
    ensures SortedBy(rows, ScoreAtLeast) ==> SortedBy(rest, ScoreAtLeast) && SortedBy([rows[0]] + rest, ScoreAtLeast)
    ensures DistinctBy(rows, Other) ==> DistinctBy(rest, Other) && DistinctBy([rows[0]] + rest, Other)
  {
    var t := [rows[0]] + rest;
    if SortedBy(rows, ScoreAtLeast) {
      assert SortedBy(rows[1..], ScoreAtLeast);
      forall i, j | 0 <= i < j < |t| ensures ScoreAtLeast(t[i], t[j]) {
        if i == 0 {
          assert t[j] == rest[j - 1] && t[j] in rows[1..];
          var b :| 0 <= b < |rows[1..]| && rows[1..][b] == t[j];
          assert rows[b + 1] == t[j];
        } else {
          assert t[i] == rest[i - 1] && t[j] == rest[j - 1];
        }
      }
    }
    if DistinctBy(rows, Other) {
      assert DistinctBy(rows[1..], Other);
      forall i, j | 0 <= i < j < |t| ensures Other(t[i]) != Other(t[j]) {
        if i == 0 {
          assert t[j] == rest[j - 1] && t[j] in rows[1..];
          var b :| 0 <= b < |rows[1..]| && rows[1..][b] == t[j];
          assert rows[b + 1] == t[j];
        } else {
          assert t[i] == rest[i - 1] && t[j] == rest[j - 1];
        }
      }
    }
  }

  /** The score of the edge between `selected` and `o`. */
  function ScoreWith(store: RelationshipStore, selected: string, o: string): int
    reads store
    requires Link(selected, o) in store.edges
  {
    store.edges[Link(selected, o)].score
  }

  /** The closest-people query: the people joined to `selected` by an edge scoring
      above 1240, highest score first, at most five. */
  function ClosestPeople(store: RelationshipStore, selected: string): (r: seq<string>)
    reads store
    requires store.Valid()
    ensures |r| <= ClosestLimit
    ensures Distinct(r)
    ensures forall i :: 0 <= i < |r| ==>
              r[i] != selected && Link(selected, r[i]) in store.edges
              && ScoreWith(store, selected, r[i]) > ClosenessThreshold
    ensures forall i, j :: 0 <= i < j < |r| ==> ScoreWith(store, selected, r[i]) >= ScoreWith(store, selected, r[j])
    ensures forall o :: Link(selected, o) in store.edges && o != selected && o !in r
                        && ScoreWith(store, selected, o) > ClosenessThreshold
                     ==> |r| == ClosestLimit && forall i :: 0 <= i < |r| ==> ScoreWith(store, selected, r[i]) >= ScoreWith(store, selected, o)
    ensures (forall o :: Link(selected, o) in store.edges ==> ScoreWith(store, selected, o) <= ClosenessThreshold) ==> r == []
  {
    var close := AboveThreshold(store.RelationshipsForPerson(selected));
    var n := if |close| < ClosestLimit then |close| else ClosestLimit;
    var r := seq(n, k requires 0 <= k < n => close[k].person2);
    ClosestPeopleFacts(store, selected, close, r);
    r
  }

  /** What the rows above the threshold are: one per close person, by score descending. */
  lemma CloseRows(store: RelationshipStore, selected: string, close: seq<Relationship>)
    requires store.Valid()
    requires close == AboveThreshold(store.RelationshipsForPerson(selected))
    ensures SortedBy(close, ScoreAtLeast) && DistinctBy(close, Other)
    ensures forall k :: 0 <= k < |close| ==>
              && close[k].person2 != selected && Link(selected, close[k].person2) in store.edges
              && ScoreWith(store, selected, close[k].person2) == close[k].closenessScore
              && close[k].closenessScore > ClosenessThreshold
    ensures forall o :: Link(selected, o) in store.edges && o != selected
                        && ScoreWith(store, selected, o) > ClosenessThreshold
                     ==> RowOf(store.edges, selected, o) in close
  {
    var rows := store.RelationshipsForPerson(selected);
    assert forall k :: 0 <= k < |close| ==> close[k] in close;
  }

  lemma ClosestPeopleFacts(store: RelationshipStore, selected: string, close: seq<Relationship>, r: seq<string>)
    requires store.Valid()
    requires close == AboveThreshold(store.RelationshipsForPerson(selected))
    requires |r| == (if |close| < ClosestLimit then |close| else ClosestLimit)
    requires forall k :: 0 <= k < |r| ==> r[k] == close[k].person2
    ensures Distinct(r)
    ensures forall i :: 0 <= i < |r| ==>
              r[i] != selected && Link(selected, r[i]) in store.edges
              && ScoreWith(store, selected, r[i]) > ClosenessThreshold
    ensures forall i, j :: 0 <= i < j < |r| ==> ScoreWith(store, selected, r[i]) >= ScoreWith(store, selected, r[j])
    ensures forall o :: Link(selected, o) in store.edges && o != selected && o !in r
                        && ScoreWith(store, selected, o) > ClosenessThreshold
                     ==> |r| == ClosestLimit && forall i :: 0 <= i < |r| ==> ScoreWith(store, selected, r[i]) >= ScoreWith(store, selected, o)
  {
    CloseRows(store, selected, close);
    forall i, j | 0 <= i < j < |r| ensures r[i] != r[j] {
      assert Other(close[i]) != Other(close[j]);
    }
    forall i, j | 0 <= i < j < |r|
      ensures ScoreWith(store, selected, r[i]) >= ScoreWith(store, selected, r[j])
    {
      assert ScoreAtLeast(close[i], close[j]);
    }
    forall o | Link(selected, o) in store.edges && o != selected && o !in r
                 && ScoreWith(store, selected, o) > ClosenessThreshold
      ensures |r| == ClosestLimit && forall i :: 0 <= i < |r| ==> ScoreWith(store, selected, r[i]) >= ScoreWith(store, selected, o)
    {
      TopRowsBound(store, selected, close, r, o);
    }
  }

  lemma TopRowsBound(store: RelationshipStore, selected: string, close: seq<Relationship>, r: seq<string>, o: string)
    requires store.Valid()
    requires Link(selected, o) in store.edges && o != selected && o !in r
    requires RowOf(store.edges, selected, o) in close
    requires SortedBy(close, ScoreAtLeast)
    requires |r| == (if |close| < ClosestLimit then |close| else ClosestLimit)
    requires forall k :: 0 <= k < |r| ==> r[k] == close[k].person2
    requires forall k :: 0 <= k < |close| ==>
               && Link(selected, close[k].person2) in store.edges
               && ScoreWith(store, selected, close[k].person2) == close[k].closenessScore
    ensures |r| == ClosestLimit
    ensures forall i :: 0 <= i < |r| ==> ScoreWith(store, selected, r[i]) >= ScoreWith(store, selected, o)
  {
    var x := RowOf(store.edges, selected, o);
    var q :| 0 <= q < |close| && close[q] == x;
    assert q >= |r|;
    forall i | 0 <= i < |r| ensures ScoreWith(store, selected, r[i]) >= ScoreWith(store, selected, o) {
      assert ScoreAtLeast(close[i], close[q]);
    }
  }

  /** Direct pairs first, then every pair of the selected user's closest people. */
  function CandidatePool(store: RelationshipStore, selected: string): (r: seq<NamePair>)
    reads store
    requires store.Valid()
    ensures forall p :: p in r ==>
              || (p.person1 == selected && p.person2 != selected && p.person2 in store.people)
              || (p.person1 != p.person2 && p.person1 in ClosestPeople(store, selected)
                  && p.person2 in ClosestPeople(store, selected))
    ensures selected in store.people ==> |r| <= |store.people| - 1 + 10
    ensures selected !in store.people ==> |r| <= 10
  {
    var direct := DirectPairs(store, selected);
    var closest := ClosestPeople(store, selected);
    CombinationsMembers(closest);
    CombinationsOfFiveAtMostTen(closest);
    direct + Combinations(closest)
  }

  // ---------------------------------------------------------------------------
  // Choosing the two pairs

  /** Unbiased branch: the first two shuffled pairs, or the error when there are fewer than two. */
  function ChooseUnbiased(shuffled: seq<NamePair>): (r: Result<ComparisonPair, SelectionError>)
    ensures r.Failure? <==> |shuffled| < 2
    ensures r.Failure? ==> r.error == NotEnoughPeople
    ensures r.Success? ==> r.value.pair1 == shuffled[0] && r.value.pair2 == shuffled[1]
    ensures r.Success? && !SameUnordered(shuffled[1], shuffled[0]) ==> IsBiasedChoice(shuffled, r)
  {
    if |shuffled| < 2 then Failure(NotEnoughPeople)
    else Success(ComparisonPair(shuffled[0], shuffled[1]))
  }

  /** `p` is the least index from 1 on whose pair differs from `s[0]` in either order. */
  ghost predicate FirstDifferentAt(s: seq<NamePair>, p: int)
  {
    && 1 <= p < |s|
    && !SameUnordered(s[p], s[0])
    && forall k :: 1 <= k < p ==> SameUnordered(s[k], s[0])
  }

  /** What the biased branch returns for the shuffled pool `s`: pair1 is `s[0]`;
      pair2 is the first later pair that differs from it in either order, or
      pair1 again when there is none; an empty pool is the crash. */
  ghost predicate IsBiasedChoice(s: seq<NamePair>, r: Result<ComparisonPair, SelectionError>)
  {
    if |s| == 0 then r == Failure(EmptyPoolCrash)
    else
      && r.Success?
      && r.value.pair1 == s[0]
      && (|| (exists p :: FirstDifferentAt(s, p) && r.value.pair2 == s[p])
          || ((forall k :: 1 <= k < |s| ==> SameUnordered(s[k], s[0])) && r.value.pair2 == s[0]))
  }

  /** Biased branch: the `while` loop that advances `pairIndex`, then the fallback. */
  method ChooseBiased(shuffled: seq<NamePair>) returns (r: Result<ComparisonPair, SelectionError>)
    ensures IsBiasedChoice(shuffled, r)
  {
    if |shuffled| == 0 {
      return Failure(EmptyPoolCrash);
    }
    var pair1 := shuffled[0];
    var pairIndex := 1;
    while pairIndex < |shuffled|
      invariant 1 <= pairIndex <= |shuffled|
      invariant forall k :: 1 <= k < pairIndex ==> SameUnordered(shuffled[k], pair1)
    {
      var isDifferentPair := !SameUnordered(shuffled[pairIndex], pair1);
      if isDifferentPair {
        break;
      }
      pairIndex := pairIndex + 1;
    }
    if pairIndex >= |shuffled| || |shuffled| < 2 {
      return Success(ComparisonPair(pair1, pair1));
    }
    assert FirstDifferentAt(shuffled, pairIndex);
    r := Success(ComparisonPair(pair1, shuffled[pairIndex]));
  }

  /** The biased choice is a function of the shuffled pool. */
  lemma BiasedChoiceIsUnique(s: seq<NamePair>, r1: Result<ComparisonPair, SelectionError>, r2: Result<ComparisonPair, SelectionError>)
    requires IsBiasedChoice(s, r1) && IsBiasedChoice(s, r2)
    ensures r1 == r2
  {
    if |s| > 0 {
      if p1 :| FirstDifferentAt(s, p1) && r1.value.pair2 == s[p1] {
        var p2 :| FirstDifferentAt(s, p2) && r2.value.pair2 == s[p2];
        assert p1 == p2;
      }
    }
  }

  /** Whenever the pool holds two different pairs, the biased choice returns two
      different pairs, whatever the shuffle. */
  lemma BiasedChoiceDiffersWhenPossible(pool: seq<NamePair>, s: seq<NamePair>, r: Result<ComparisonPair, SelectionError>, i: nat, j: nat)
    requires multiset(s) == multiset(pool)
    requires i < |pool| && j < |pool| && !SameUnordered(pool[i], pool[j])
    requires IsBiasedChoice(s, r)
    ensures r.Success? && !SameUnordered(r.value.pair1, r.value.pair2)
  {
    assert pool[i] in multiset(s) && pool[j] in multiset(s);
    assert |s| > 0;
    if forall k :: 1 <= k < |s| ==> SameUnordered(s[k], s[0]) {
      forall k | 0 <= k < |s| ensures Names(s[k]) == Names(s[0]) {
        SameUnorderedIsSameNames(s[k], s[0]);
      }
      var a :| 0 <= a < |s| && s[a] == pool[i];
      var b :| 0 <= b < |s| && s[b] == pool[j];
      SameUnorderedIsSameNames(pool[i], pool[j]);
      assert false;
    }
  }

  /** n people give fewer than two pairs exactly when n < 3. */
  lemma FewerThanTwoCombinations(people: seq<string>)
    ensures |Combinations(people)| < 2 <==> |people| < 3
  {
    CombinationsCount(people);
    var n := |people|;
    if n >= 3 {
      assert n * (n - 1) >= 3 * (n - 1) >= 6;
    } else {
      assert n * (n - 1) <= 2;
    }
  }

  /** The unbiased branch fails exactly when there are fewer than three people, and
      otherwise returns two different pairs of people, whatever the shuffle. */
  lemma UnbiasedChoice(people: seq<string>, s: seq<NamePair>)
    requires Distinct(people)
    requires multiset(s) == multiset(Combinations(people))
    ensures ChooseUnbiased(s).Failure? <==> |people| < 3
    ensures ChooseUnbiased(s).Success? ==>
              var c := ChooseUnbiased(s).value;
              && c.pair1 in Combinations(people) && c.pair2 in Combinations(people)
              && !SameUnordered(c.pair1, c.pair2)
  {
    FewerThanTwoCombinations(people);
    assert |s| == |multiset(s)| == |Combinations(people)|;
    if |s| >= 2 {
      CombinationsDistinct(people);
      PermutationKeepsDistinctBy(Combinations(people), s, Names);
      assert Names(s[0]) != Names(s[1]);
      SameUnorderedIsSameNames(s[0], s[1]);
      assert s[0] in multiset(Combinations(people)) && s[1] in multiset(Combinations(people));
    }
  }

  /** Both pairs of a biased choice come from the pool that was shuffled. */
  lemma BiasedChoiceFromPool(pool: seq<NamePair>, s: seq<NamePair>, r: Result<ComparisonPair, SelectionError>)
    requires multiset(s) == multiset(pool)
    requires pool != []
    requires IsBiasedChoice(s, r)
    ensures r.Success? && r.value.pair1 in pool && r.value.pair2 in pool
  {
    assert |s| == |pool|;
    assert s[0] in multiset(pool);
    if p :| FirstDifferentAt(s, p) && r.value.pair2 == s[p] {
      assert s[p] in multiset(pool);
    }
  }

  /** A selected user with no edge above the threshold has no closest people, so
      the pool holds just the direct pairs: one per other person. */
  lemma DirectOnlyWithoutCloseEdges(store: RelationshipStore, u: string)
    requires store.Valid() && u in store.people
    requires forall o :: Link(u, o) in store.edges ==> store.edges[Link(u, o)].score <= ClosenessThreshold
    ensures CandidatePool(store, u) == DirectPairs(store, u)
    ensures |CandidatePool(store, u)| == |store.people| - 1
    ensures forall p :: p in CandidatePool(store, u) <==>
              p.person1 == u && p.person2 in store.people && p.person2 != u
  {
    var closest := ClosestPeople(store, u);
    assert closest == [];
    assert Combinations(closest) == [];
  }

  /** The biased pool is empty, so the branch crashes, exactly when the selected user
      does not exist or is the only person. */
  lemma EmptyPoolExactly(store: RelationshipStore, u: string)
    requires store.Valid()
    ensures CandidatePool(store, u) == [] <==> u !in store.people || |store.people| == 1
  {
    if u !in store.people || |store.people| == 1 {
      forall o ensures Link(u, o) !in store.edges {
        NoEdgeAt(store, u, o);
      }
      assert ClosestPeople(store, u) == [];
      assert Combinations([]) == [];
    } else {
      var o :| o in store.people && o != u by {
        var i :| 0 <= i < |store.people| && store.people[i] == u;
        assert |store.people| >= 2;
        var j := if i == 0 then 1 else 0;
        assert store.people[j] in store.people && store.people[j] != u;
      }
      assert NamePair(u, o) in DirectPairs(store, u);
    }
  }

  /** A person who does not exist, or the only person, has no edge. */
  lemma NoEdgeAt(store: RelationshipStore, u: string, o: string)
    requires store.Valid()
    requires u !in store.people || |store.people| == 1
    ensures Link(u, o) !in store.edges
  {
  }

  /** `getPairsToCompare`. `selectedUser` is `None` for undefined; the empty name is
      falsy too and takes the unbiased branch. */
  method GetPairsToCompare(store: RelationshipStore, selectedUser: Option<string>,
                           shuffle: seq<NamePair> -> seq<NamePair>)
    returns (r: Result<ComparisonPair, SelectionError>)
    requires store.Valid()
    requires forall s :: multiset(shuffle(s)) == multiset(s)
    ensures selectedUser.None? || selectedUser.value == "" ==>
              r == ChooseUnbiased(shuffle(Combinations(store.people)))
    ensures selectedUser.Some? && selectedUser.value != "" ==>
              IsBiasedChoice(shuffle(CandidatePool(store, selectedUser.value)), r)
  {
    if selectedUser.None? || selectedUser.value == "" {
      var relationships := Combinations(store.people);
      r := ChooseUnbiased(shuffle(relationships));
    } else {
      var selected := selectedUser.value;
      var directRelationships := DirectPairs(store, selected);
      var closestPeople := ClosestPeople(store, selected);
      var indirectRelationships := PairUp(closestPeople);
      var allRelationships := directRelationships + indirectRelationships;
      r := ChooseBiased(shuffle(allRelationships));
    }
  }
}
