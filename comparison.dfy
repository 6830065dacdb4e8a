/**
 * `submitComparison` (src/lib/actions.ts): read both edges' scores, create the
 * edges when the read finds no row, compute the two new scores and write them,
 * pair1 first. The Elo formula is the parameter `score`.
 */
module Comparison {
  import opened Wrappers
  import opened Store
  import opened PairSelection

  /** A new score computation: `(pair1Score, pair2Score, pair1Won) -> (newPair1Score, newPair2Score)`. */
  type ScoreFunction = (int, int, bool) -> (int, int)

  /** The score read: one row with both stored scores when both edges exist. A single
      `MATCH` never binds one edge to both `r1` and `r2`, so the same edge twice gives no row. */
  function ReadScores(edges: Edges, pair1: NamePair, pair2: NamePair): (r: Option<(int, int)>)
    ensures r.Some? <==> Names(pair1) in edges && Names(pair2) in edges && Names(pair1) != Names(pair2)
    ensures r.Some? ==> r.value == (edges[Names(pair1)].score, edges[Names(pair2)].score)
  {
    var k1 := Names(pair1);
    var k2 := Names(pair2);
    if k1 in edges && k2 in edges && k1 != k2 then Some((edges[k1].score, edges[k2].score))
    else None
  }

  function Swapped(p: NamePair): NamePair
  {
    NamePair(p.person2, p.person1)
  }

  /** The read's `-[r:KNOWS]-` patterns are undirected: naming either pair in the
      other order reads the same row. */
  lemma ReadScoresUndirected(edges: Edges, pair1: NamePair, pair2: NamePair)
    ensures ReadScores(edges, Swapped(pair1), pair2) == ReadScores(edges, pair1, pair2)
    ensures ReadScores(edges, pair1, Swapped(pair2)) == ReadScores(edges, pair1, pair2)
  {
    assert Names(Swapped(pair1)) == Names(pair1);
    assert Names(Swapped(pair2)) == Names(pair2);
  }

  /** The scores passed to the score function: the stored ones, or the default for both
      when the read found no row. */
  function StartingScores(edges: Edges, pair1: NamePair, pair2: NamePair): (int, int)
  {
    match ReadScores(edges, pair1, pair2)
    case Some(scores) => scores
    case None => (DefaultScore, DefaultScore)
  }

  /** The edges once both pairs are present: merged only when the read found no row. */
  function Prepared(edges: Edges, people: seq<string>, pair1: NamePair, pair2: NamePair): Edges
  {
    if ReadScores(edges, pair1, pair2).None? then
      Merge(Merge(edges, people, pair1.person1, pair1.person2), people, pair2.person1, pair2.person2)
    else edges
  }

  /** The edges after a submission: pair1 is updated first, then pair2. */
  function Submitted(edges: Edges, people: seq<string>, pair1: NamePair, pair2: NamePair,
                     pair1Won: bool, score: ScoreFunction): Edges
  {
    var (s1, s2) := StartingScores(edges, pair1, pair2);
    var (n1, n2) := score(s1, s2, pair1Won);
    Bump(Bump(Prepared(edges, people, pair1, pair2), pair1.person1, pair1.person2, n1),
         pair2.person1, pair2.person2, n2)
  }

  method SubmitComparison(store: RelationshipStore, pair1: NamePair, pair2: NamePair,
                          pair1Won: bool, score: ScoreFunction)
    returns (result1: Option<Relationship>, result2: Option<Relationship>)
    requires store.Valid()
    requires pair1.person1 != pair1.person2 && pair2.person1 != pair2.person2
    modifies store
    ensures store.Valid() && store.people == old(store.people)
    ensures store.edges == Submitted(old(store.edges), old(store.people), pair1, pair2, pair1Won, score)
    ensures result1.Some? <==> Names(pair1) in store.edges
    ensures result1.Some? ==>
              && result1.value.person1 == pair1.person1 && result1.value.person2 == pair1.person2
              && result1.value.closenessScore == score(StartingScores(old(store.edges), pair1, pair2).0,
                                                       StartingScores(old(store.edges), pair1, pair2).1, pair1Won).0
    ensures Names(pair1) != Names(pair2) && result1.Some? ==> result1.value == RowOf(store.edges, pair1.person1, pair1.person2)
    ensures Names(pair1) == Names(pair2) && result1.Some? ==>
              store.edges[Names(pair1)] == Edge(score(DefaultScore, DefaultScore, pair1Won).1,
                                                result1.value.comparisonCount + 1)
    ensures result2.Some? <==> Names(pair2) in store.edges
    ensures result2.Some? ==> result2.value == RowOf(store.edges, pair2.person1, pair2.person2)
  {
    var scores := ReadScores(store.edges, pair1, pair2);
    if scores.None? {
      var created1 := store.CreateOrUpdateRelationship(pair1.person1, pair1.person2);
      var created2 := store.CreateOrUpdateRelationship(pair2.person1, pair2.person2);
      var (newPair1Score, newPair2Score) := score(DefaultScore, DefaultScore, pair1Won);
      result1 := store.UpdateRelationshipScore(pair1.person1, pair1.person2, newPair1Score);
      result2 := store.UpdateRelationshipScore(pair2.person1, pair2.person2, newPair2Score);
    } else {
      var (pair1Score, pair2Score) := scores.value;
      var (newPair1Score, newPair2Score) := score(pair1Score, pair2Score, pair1Won);
      result1 := store.UpdateRelationshipScore(pair1.person1, pair1.person2, newPair1Score);
      result2 := store.UpdateRelationshipScore(pair2.person1, pair2.person2, newPair2Score);
    }
  }

  predicate Known(people: seq<string>, p: NamePair)
  {
    p.person1 in people && p.person2 in people
  }

  /** After a submission both edges exist when all four people do; no other edge appears. */
  lemma SubmittedKeys(edges: Edges, people: seq<string>, pair1: NamePair, pair2: NamePair,
                      pair1Won: bool, score: ScoreFunction)
    ensures var r := Submitted(edges, people, pair1, pair2, pair1Won, score);
            && (Known(people, pair1) ==> Names(pair1) in r)
            && (Known(people, pair2) ==> Names(pair2) in r)
            && r.Keys <= edges.Keys + {Names(pair1), Names(pair2)}
            && (forall k :: k in edges && k != Names(pair1) && k != Names(pair2) ==> r[k] == edges[k])
  {
    if ReadScores(edges, pair1, pair2).Some? {
      assert Names(pair1) in edges && Names(pair2) in edges;
    }
  }

  /** When the read finds no row, both new scores come from the default start,
      even when one of the edges already existed with another score, and each of two
      different edges is counted once more. */
  lemma SubmittedWithoutRow(edges: Edges, people: seq<string>, pair1: NamePair, pair2: NamePair,
                            pair1Won: bool, score: ScoreFunction)
    requires ReadScores(edges, pair1, pair2).None?
    requires Known(people, pair1) && Known(people, pair2)
    requires Names(pair1) != Names(pair2)
    ensures var r := Submitted(edges, people, pair1, pair2, pair1Won, score);
            var (n1, n2) := score(DefaultScore, DefaultScore, pair1Won);
            && Names(pair1) in r && Names(pair2) in r
            && r[Names(pair1)] == Edge(n1, (if Names(pair1) in edges then edges[Names(pair1)].count else 0) + 1)
            && r[Names(pair2)] == Edge(n2, (if Names(pair2) in edges then edges[Names(pair2)].count else 0) + 1)
  {
    var m := Prepared(edges, people, pair1, pair2);
    assert m[Names(pair1)].count == if Names(pair1) in edges then edges[Names(pair1)].count else 0;
    assert m[Names(pair2)].count == if Names(pair2) in edges then edges[Names(pair2)].count else 0;
  }

  /** When the read finds both edges, the stored scores are the starting scores and each
      edge is counted once more. */
  lemma SubmittedWithRow(edges: Edges, people: seq<string>, pair1: NamePair, pair2: NamePair,
                         pair1Won: bool, score: ScoreFunction)
    requires Names(pair1) in edges && Names(pair2) in edges && Names(pair1) != Names(pair2)
    ensures var r := Submitted(edges, people, pair1, pair2, pair1Won, score);
            var (n1, n2) := score(edges[Names(pair1)].score, edges[Names(pair2)].score, pair1Won);
            && r[Names(pair1)] == Edge(n1, edges[Names(pair1)].count + 1)
            && r[Names(pair2)] == Edge(n2, edges[Names(pair2)].count + 1)
  {
  }

  /** Both pairs naming one edge (the fallback `pair2 == pair1`): it starts from the
      default, is updated twice, and keeps pair2's new score. */
  lemma SubmittedSameEdge(edges: Edges, people: seq<string>, pair1: NamePair, pair2: NamePair,
                          pair1Won: bool, score: ScoreFunction)
    requires Names(pair1) == Names(pair2) && Known(people, pair1)
    ensures var r := Submitted(edges, people, pair1, pair2, pair1Won, score);
            && Names(pair1) in r
            && r[Names(pair1)] == Edge(score(DefaultScore, DefaultScore, pair1Won).1,
                                        (if Names(pair1) in edges then edges[Names(pair1)].count else 0) + 2)
  {
    var m := Prepared(edges, people, pair1, pair2);
    assert m[Names(pair1)].count == if Names(pair1) in edges then edges[Names(pair1)].count else 0;
  }
}
