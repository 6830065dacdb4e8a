/**
 * The graph store as the queries of src/lib/actions.ts see it: `Person` nodes
 * identified by name and undirected `KNOWS` edges carrying a closeness score and a
 * comparison count. Each write query is a method of `RelationshipStore`; each read
 * query is a function of its state.
 */
module Store {
  import opened Wrappers
  import opened Sorting
  import opened Neo4jValues

  /** The score a new edge gets (`ON CREATE SET r.closeness_score = 1200`). */
  const DefaultScore: int := 1200

  datatype Edge = Edge(score: int, count: nat)

  /** A row of the relationship queries: the two names as matched, the score and the count. */
  datatype Relationship = Relationship(person1: string, person2: string, closenessScore: int, comparisonCount: nat)

  /** Edges are undirected: an edge is keyed by the set of its two endpoint names. */
  type Edges = map<set<string>, Edge>

  function Link(a: string, b: string): set<string>
  {
    {a, b}
  }

  function Other(x: Relationship): string
  {
    x.person2
  }

  function Ends(x: Relationship): set<string>
  {
    Link(x.person1, x.person2)
  }

  /** `ORDER BY r.closeness_score DESC`: `x` may come before `y`. */
  predicate ScoreAtLeast(x: Relationship, y: Relationship)
  {
    x.closenessScore >= y.closenessScore
  }

  lemma ScoreAtLeastIsTotalPreorder()
    ensures TotalPreorder(ScoreAtLeast)
  {
  }

  predicate Distinct(s: seq<string>)
  {
    forall i, j :: 0 <= i < j < |s| ==> s[i] != s[j]
  }

  /** The row the queries return for the edge between `a` and `b`, matched in that orientation. */
  function RowOf(edges: Edges, a: string, b: string): Relationship
    requires Link(a, b) in edges
  {
    Relationship(a, b, edges[Link(a, b)].score, edges[Link(a, b)].count)
  }

  /** `MERGE (a)-[r:KNOWS]-(b) ON CREATE SET ...` after matching both people:
      an edge is added, with the default score and count 0, only when both people
      exist and no edge joins them in either orientation. */
  function Merge(edges: Edges, people: seq<string>, a: string, b: string): (r: Edges)
    ensures forall k :: k in edges ==> k in r && r[k] == edges[k]
    ensures r.Keys == if a in people && b in people then edges.Keys + {Link(a, b)} else edges.Keys
    ensures Link(a, b) in r && Link(a, b) !in edges ==> r[Link(a, b)] == Edge(DefaultScore, 0)
    ensures Link(a, b) in edges ==> r == edges
  {
    if a in people && b in people && Link(a, b) !in edges then edges[Link(a, b) := Edge(DefaultScore, 0)]
    else edges
  }

  /** Merging is the same in either orientation, and merging twice is merging once. */
  lemma MergeIdempotent(edges: Edges, people: seq<string>, a: string, b: string)
    ensures Merge(edges, people, b, a) == Merge(edges, people, a, b)
    ensures Merge(Merge(edges, people, a, b), people, a, b) == Merge(edges, people, a, b)
  {
    assert Link(b, a) == Link(a, b);
  }

  /** `SET r.closeness_score = $newScore, r.comparison_count = r.comparison_count + 1`
      on the matched edge; nothing happens when there is none. */
  function Bump(edges: Edges, a: string, b: string, newScore: int): (r: Edges)
    ensures r.Keys == edges.Keys
    ensures forall k :: k in edges && k != Link(a, b) ==> r[k] == edges[k]
    ensures Link(a, b) in edges ==> r[Link(a, b)] == Edge(newScore, edges[Link(a, b)].count + 1)
    ensures Link(a, b) !in edges ==> r == edges
  {
    if Link(a, b) in edges then edges[Link(a, b) := Edge(newScore, edges[Link(a, b)].count + 1)]
    else edges
  }

  /** `DETACH DELETE`: every edge touching `name` goes, every other edge stays as it is. */
  function Detach(edges: Edges, name: string): (r: Edges)
    ensures forall k :: k in r <==> k in edges && name !in k
    ensures forall k :: k in r ==> r[k] == edges[k]
  {
    map k | k in edges && name !in k :: edges[k]
  }

  /** `s` without `x`, in the same order. */
  function Without(s: seq<string>, x: string): (r: seq<string>)
    ensures forall y :: y in r <==> y in s && y != x
    ensures Distinct(s) ==> Distinct(r)
    ensures x !in s ==> r == s
    ensures Distinct(s) && x in s ==> |r| == |s| - 1
  {
    if s == [] then []
    else
      assert s == [s[0]] + s[1..];
      assert Distinct(s) ==> Distinct(s[1..]) && s[0] !in s[1..];
      if s[0] == x then Without(s[1..], x)
      else [s[0]] + Without(s[1..], x)
  }

  /** The rows for the edges between `a` and each of `others`, in the order of `others`. */
  function LinkedRows(edges: Edges, a: string, others: seq<string>): (r: seq<Relationship>)
    ensures forall x :: x in r ==>
              x.person1 == a && x.person2 in others && Link(a, x.person2) in edges && x == RowOf(edges, a, x.person2)
    ensures forall o :: o in others && Link(a, o) in edges ==> RowOf(edges, a, o) in r
    ensures Distinct(others) ==> DistinctBy(r, Other)
  {
    if others == [] then []
    else
      var rest := LinkedRows(edges, a, others[1..]);
      if Link(a, others[0]) in edges then
        assert forall x :: x in rest ==> x.person2 in others[1..];
        [RowOf(edges, a, others[0])] + rest
      else rest
  }

  /** Rows for the edges among `ps`, each as `(ps[i], ps[j])` with `i < j`
      (`WHERE id(a) < id(b)`, with node ids in the order of `ps`). */
  function PairRows(edges: Edges, ps: seq<string>): (r: seq<Relationship>)
    ensures forall x :: x in r ==>
              x.person1 in ps && x.person2 in ps && Link(x.person1, x.person2) in edges
              && x == RowOf(edges, x.person1, x.person2)
    ensures forall i, j :: 0 <= i < j < |ps| && Link(ps[i], ps[j]) in edges ==> RowOf(edges, ps[i], ps[j]) in r
    ensures Distinct(ps) ==> DistinctBy(r, Ends)
  {
    if ps == [] then []
    else
      var first := LinkedRows(edges, ps[0], ps[1..]);
      var rest := PairRows(edges, ps[1..]);
      assert forall i, j :: 1 <= i < j < |ps| ==> ps[i] == ps[1..][i - 1] && ps[j] == ps[1..][j - 1];
      assert Distinct(ps) ==> Distinct(ps[1..]);
      DistinctEnds(ps, first, rest);
      first + rest
  }

  lemma DistinctEnds(ps: seq<string>, first: seq<Relationship>, rest: seq<Relationship>)
    requires ps != []
    requires forall x :: x in first ==> x.person1 == ps[0] && x.person2 in ps[1..]
    requires forall x :: x in rest ==> x.person1 in ps[1..] && x.person2 in ps[1..]
    requires Distinct(ps) ==> DistinctBy(first, Other) && DistinctBy(rest, Ends)
    ensures Distinct(ps) ==> DistinctBy(first + rest, Ends)
  {
    if !Distinct(ps) { return; }
    var s := first + rest;
    forall i, j | 0 <= i < j < |s| ensures Ends(s[i]) != Ends(s[j]) {
      if j < |first| {
        assert s[i] == first[i] && s[j] == first[j];
        assert ps[0] !in ps[1..];
        assert Other(s[i]) != Other(s[j]);
        assert Other(s[j]) in Ends(s[j]) && Other(s[j]) != ps[0];
      } else if i < |first| {
        assert s[i] == first[i] && s[j] == rest[j - |first|];
        assert ps[0] in Ends(s[i]) && ps[0] !in Ends(s[j]);
      } else {
        assert s[i] == rest[i - |first|] && s[j] == rest[j - |first|];
      }
    }
  }

  /** A two-element set is the link of two different names. */
  lemma TwoEnds(k: set<string>) returns (a: string, b: string)
    requires |k| == 2
    ensures a != b && k == Link(a, b)
  {
    a :| a in k;
    var rest := k - {a};
    assert |rest| == 1;
    b :| b in rest;
    assert |rest - {b}| == |rest| - 1;
    assert rest - {b} == {};
    assert k == {a} + rest;
  }

  /** The driver's record for a row whose score and count are still driver integers. */
  function DriverRecord(x: Relationship): Value
  {
    Obj(map["person1" := Str(x.person1), "person2" := Str(x.person2),
            "closeness_score" := NeoInteger(x.closenessScore),
            "comparison_count" := NeoInteger(x.comparisonCount)])
  }

  /** The record as the callers see it: plain numbers. */
  function PlainRecord(x: Relationship): Value
  {
    Obj(map["person1" := Str(x.person1), "person2" := Str(x.person2),
            "closeness_score" := Num(x.closenessScore as real),
            "comparison_count" := Num(x.comparisonCount as real)])
  }

  /** Serializing a returned record yields the plain record when both numbers fit in 32 signed bits. */
  lemma SerializeDriverRecord(x: Relationship)
    requires -Two31 <= x.closenessScore < Two31 && x.comparisonCount < Two31
    ensures Serialize(DriverRecord(x)) == PlainRecord(x)
  {
    var v := DriverRecord(x);
    assert !IsNeo4jInteger(v);
    SerializeNeoInteger(x.closenessScore);
    SerializeNeoInteger(x.comparisonCount);
    assert Serialize(Str(x.person1)) == Str(x.person1);
    assert Serialize(Str(x.person2)) == Str(x.person2);
    assert Serialize(v).fields == PlainRecord(x).fields;
  }

  class RelationshipStore {
    /** The people, in node-id order. */
    var people: seq<string>
    var edges: Edges

    /** Names are unique, and every edge joins two different existing people. */
    ghost predicate Valid()
      reads this
    {
      && Distinct(people)
      && forall k :: k in edges ==> |k| == 2 && forall n :: n in k ==> n in people
    }

    constructor ()
      ensures Valid() && people == [] && edges == map[]
    {
      people := [];
      edges := map[];
    }

    /** `CREATE (p:Person {name: $name})`, for a name not yet taken. */
    method AddPerson(name: string) returns (person: string)
      requires Valid() && name !in people
      modifies this
      ensures Valid() && people == old(people) + [name] && edges == old(edges)
      ensures person == name
    {
      people := people + [name];
      person := name;
    }

    /** `MATCH (p:Person {name: $name}) DETACH DELETE p RETURN count(p)`:
        the result is whether a person was deleted. */
    method DeletePerson(name: string) returns (deleted: bool)
      requires Valid()
      modifies this
      ensures Valid()
      ensures deleted <==> name in old(people)
      ensures people == Without(old(people), name)
      ensures edges == Detach(old(edges), name)
    {
      deleted := name in people;
      people := Without(people, name);
      edges := Detach(edges, name);
    }

    /** `createOrUpdateRelationship`: the edge is merged and returned; no row (`None`)
        when one of the people does not exist. */
    method CreateOrUpdateRelationship(name1: string, name2: string) returns (r: Option<Relationship>)
      requires Valid() && name1 != name2
      modifies this
      ensures Valid() && people == old(people)
      ensures edges == Merge(old(edges), people, name1, name2)
      ensures r.Some? <==> name1 in people && name2 in people
      ensures r.Some? ==> Link(name1, name2) in edges && r.value == RowOf(edges, name1, name2)
    {
      edges := Merge(edges, people, name1, name2);
      if name1 in people && name2 in people {
        r := Some(RowOf(edges, name1, name2));
      } else {
        r := None;
      }
    }

    /** `updateRelationshipScore`: the matched edge gets `newScore` and one more
        comparison; no row (`None`) and no change when there is no such edge. */
    method UpdateRelationshipScore(name1: string, name2: string, newScore: int) returns (r: Option<Relationship>)
      requires Valid()
      modifies this
      ensures Valid() && people == old(people)
      ensures edges == Bump(old(edges), name1, name2, newScore)
      ensures r.Some? <==> Link(name1, name2) in edges
      ensures r.Some? ==> Link(name1, name2) in edges && r.value == RowOf(edges, name1, name2)
    {
      edges := Bump(edges, name1, name2, newScore);
      if Link(name1, name2) in edges {
        r := Some(RowOf(edges, name1, name2));
      } else {
        r := None;
      }
    }

    /** `getAllPeople`: every name once, ordered by name. */
    function AllPeople(): (r: seq<string>)
      reads this
      ensures SortedBy(r, NameLe)
      ensures multiset(r) == multiset(people)
    {
      NameLeIsTotalPreorder();
      InsertionSort(people, NameLe)
    }

    /** The name order leaves no freedom: any name-sorted permutation of the people
        is what `getAllPeople` returns. */
    lemma AllPeopleIsUnique(t: seq<string>)
      requires SortedBy(t, NameLe) && multiset(t) == multiset(people)
      ensures t == AllPeople()
    {
      SortedByNameIsUnique(AllPeople(), t);
    }

    /** `getRelationshipsForPerson`: one row `(name, other)` per edge at `name`,
        by score descending. */
    function RelationshipsForPerson(name: string): (r: seq<Relationship>)
      reads this
      requires Valid()
      ensures SortedBy(r, ScoreAtLeast)
      ensures forall x :: x in r ==>
                x.person1 == name && x.person2 != name && Link(name, x.person2) in edges
                && x == RowOf(edges, name, x.person2)
      ensures forall o :: Link(name, o) in edges ==> RowOf(edges, name, o) in r
      ensures DistinctBy(r, Other)
    {
      var rows := LinkedRows(edges, name, people);
      ScoreAtLeastIsTotalPreorder();
      var r := InsertionSort(rows, ScoreAtLeast);
      SortedRowsAt(name, rows, r);
      r
    }

    lemma SortedRowsAt(name: string, rows: seq<Relationship>, r: seq<Relationship>)
      requires Valid()
      requires rows == LinkedRows(edges, name, people)
      requires multiset(r) == multiset(rows)
      ensures forall x :: x in r ==>
                x.person1 == name && x.person2 != name && Link(name, x.person2) in edges
                && x == RowOf(edges, name, x.person2)
      ensures forall o :: Link(name, o) in edges ==> RowOf(edges, name, o) in r
      ensures DistinctBy(r, Other)
    {
      PermutationKeepsDistinctBy(rows, r, Other);
      PermutationSameMembers(rows, r);
      forall x | x in rows ensures x.person2 != name {
        assert |Link(name, name)| == 1;
      }
      forall o | Link(name, o) in edges ensures o in people {
        assert o in Link(name, o);
      }
    }

    /** `getAllRelationships`: every edge exactly once, by score descending. */
    function AllRelationships(): (r: seq<Relationship>)
      reads this
      requires Valid()
      ensures SortedBy(r, ScoreAtLeast)
      ensures forall x :: x in r ==> Ends(x) in edges && x == RowOf(edges, x.person1, x.person2)
      ensures forall k :: k in edges ==> exists x :: x in r && Ends(x) == k
      ensures DistinctBy(r, Ends)
    {
      var rows := PairRows(edges, people);
      ScoreAtLeastIsTotalPreorder();
      var r := InsertionSort(rows, ScoreAtLeast);
      PermutationKeepsDistinctBy(rows, r, Ends);
      assert forall x :: x in r ==> x in multiset(rows);
      EveryEdgeHasARow(rows, r);
      r
    }

    lemma EveryEdgeHasARow(rows: seq<Relationship>, r: seq<Relationship>)
      requires Valid()
      requires rows == PairRows(edges, people)
      requires multiset(r) == multiset(rows)
      ensures forall k :: k in edges ==> exists x :: x in r && Ends(x) == k
    {
      forall k | k in edges ensures exists x :: x in r && Ends(x) == k {
        var x := RowForEdge(k);
        assert x in multiset(rows);
      }
    }

    lemma RowForEdge(k: set<string>) returns (x: Relationship)
      requires Valid() && k in edges
      ensures x in PairRows(edges, people) && Ends(x) == k
    {
      var a, b := TwoEnds(k);
      assert a in k && b in k;
      var i :| 0 <= i < |people| && people[i] == a;
      var j :| 0 <= j < |people| && people[j] == b;
      assert Link(b, a) == k;
      if i < j {
        x := RowOf(edges, people[i], people[j]);
      } else {
        x := RowOf(edges, people[j], people[i]);
      }
    }
  }
}
