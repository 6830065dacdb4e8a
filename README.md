# socialgraph: a Dafny model of the pairwise comparison engine

socialgraph ranks how close pairs of people are. It repeatedly shows two pairs of
people, asks which pair is closer, and keeps an Elo-style closeness score on every
`KNOWS` edge of a Neo4j graph of `Person` nodes. This project models the parts of
`src/lib/actions.ts` and `src/lib/utils.ts` that hold the logic:

- `wrappers.dfy`: `Option` (a query that returned no row) and `Result`.
- `sorting.dfy`: the stable insertion sort standing for `ORDER BY`. It also holds
  the name order (lexicographic by character code) and the fact that a permutation
  keeps distinct keys distinct.
- `neo4j_values.dfy`: JSON-like driver values and `serializeNeo4jObject`. The
  converter turns every object with numeric `low` and `high` fields into the number
  `low`.
- `store.dfy`: the graph as a class `RelationshipStore`.
  - `people` lists the names in node-id order.
  - `edges` maps each unordered name pair (a two-element set) to its score and count.
  - Each write query is a method. Each read query is a function of the state.
- `pair_selection.dfy`: `getPairsToCompare`.
  - the direct pairs and the closest-people query;
  - the nested loop that pairs up the closest people;
  - the `while` loop that looks for a second pair different from the first;
  - the unbiased branch.
- `comparison.dfy`: `submitComparison` as a method over the store. The Elo
  computation is a parameter of type `(int, int, bool) -> (int, int)`.

Parameters stand in for the following:

- The random shuffle `sort(() => 0.5 - Math.random())` is a parameter of
  `GetPairsToCompare`. The only assumption about it is that it returns a
  permutation of its input.
- `calculateNewScores` is the `score` parameter of `SubmitComparison`.
- Database failures and the connection are not modelled.

How the two branches of `getPairsToCompare` behave at the edges
(src/lib/actions.ts:104-111, 159-190):

- The reference-biased branch never throws "Not enough people to create two
  comparison pairs".
  - A pool of one pair returns that pair twice (the fallback at lines 180-187).
  - It crashes only when the pool is empty, that is when the selected user does not
    exist or is the only person: `shuffled[0].person1` then throws a TypeError
    (line 160). The model returns `EmptyPoolCrash` for this, and `EmptyPoolExactly`
    proves when it happens.
- The unbiased branch takes the first two shuffled rows, with no redraw.
  `UnbiasedChoice` proves that these two rows are always different pairs.

## Model

| member | source | states |
|---|---|---|
| `Neo4jValues.IsNeo4jInteger` | src/lib/utils.ts:15-24 | the type guard holds only of an object (not null, undefined, an array or a primitive), and holds of every object whose `low` and `high` are both numbers, whatever its other keys |
| `Neo4jValues.Serialize` | src/lib/utils.ts:15-55 | null and undefined come back unchanged; strings, numbers and booleans come back unchanged; an object whose `low` and `high` are numbers becomes the number `low`; an array keeps its length and each element is converted in order; any other object keeps exactly its key set and each value is converted |
| `Neo4jValues.SerializeWithoutIntegers` | src/lib/utils.ts:27-55 | a value with no `low`/`high` integer object anywhere inside comes back structurally equal to itself |
| `Neo4jValues.SerializeNotIdempotent` | src/lib/utils.ts:33-50 | `{low:{low:1,high:0},high:2}` becomes `{low:1,high:2}`, which a second pass turns into `1`, so the converter is not idempotent |
| `Neo4jValues.SerializeNeoInteger` | src/lib/utils.ts:8-36 | a driver integer converts to its signed low 32-bit word; this equals the integer exactly when the integer fits in 32 signed bits |
| `Neo4jValues.NeoIntegerDecodes` | src/lib/utils.ts:8-24 | every driver integer passes the type guard `isNeo4jInteger`; its high word is the floor of n / 2^32, and `high * 2^32 + (low >>> 0)` gives back n; the high word fits in 32 signed bits exactly when n fits in 64 |
| `Store.Merge` | src/lib/actions.ts:49-59 | the MERGE never changes an existing edge; it adds an edge exactly when both people exist; a new edge has score 1200 and count 0; if the edge exists in either orientation, nothing changes |
| `Store.MergeIdempotent` | src/lib/actions.ts:51-53 | merging a→b equals merging b→a, and merging twice equals merging once, so repeated calls never add a second edge |
| `Store.Bump` | src/lib/actions.ts:68-72 | the matched edge gets the new score and its count rises by exactly 1; every other edge is unchanged; with no such edge nothing changes |
| `Store.Detach` | src/lib/actions.ts:27-30 | after DETACH DELETE no edge touches the person, and every edge not touching them stays as it was |
| `Store.Without` | src/lib/actions.ts:28-29 | removing a person keeps every other name, keeps names unique, and shortens the list by one when the person was there |
| `Store.SerializeDriverRecord` | src/lib/actions.ts:54-59 | serializing a returned record whose score and count are driver integers gives the plain record, when both fit in 32 signed bits |
| `Store.LinkedRows` | src/lib/actions.ts:214-217 | before sorting, the rows for one person are one `(name, other)` row per edge at that person, each carrying that edge's score and count, and no other person appears twice |
| `Store.PairRows` | src/lib/actions.ts:200-204 | before sorting, `WHERE id(a) < id(b)` gives every edge as the row `(a, b)` with `a` the earlier node, each row carries its edge's score and count, and no edge appears twice |
| `Sorting.NameLeIsTotalPreorder` | src/lib/actions.ts:85 | the name order of `ORDER BY p.name` is total and transitive, so the list can be sorted by it |
| `Sorting.SortedByNameIsUnique` | src/lib/actions.ts:85 | two name-sorted lists holding the same names are equal, because the name order is antisymmetric |
| `Store.RelationshipStore.AddPerson` | src/lib/actions.ts:38-46 | CREATE appends the new name and returns it; the edges are unchanged; the invariant is kept |
| `Store.RelationshipStore.DeletePerson` | src/lib/actions.ts:26-35 | the person and every incident edge are removed; the result is true exactly when the person existed |
| `Store.RelationshipStore.CreateOrUpdateRelationship` | src/lib/actions.ts:49-60 | the new edges are `Merge` of the old ones; a row comes back exactly when both people exist, and it holds the edge's current score and count |
| `Store.RelationshipStore.UpdateRelationshipScore` | src/lib/actions.ts:63-78 | the new edges are `Bump` of the old ones; a row comes back exactly when the edge exists, and it holds the new score and count |
| `Store.RelationshipStore.AllPeople` | src/lib/actions.ts:81-90 | the result is sorted by name and is a permutation of the people |
| `Store.RelationshipStore.AllPeopleIsUnique` | src/lib/actions.ts:81-90 | any name-sorted permutation of the people is exactly the result of `getAllPeople`, so the ordering is fully determined |
| `Store.RelationshipStore.RelationshipsForPerson` | src/lib/actions.ts:214-224 | exactly one row `(name, other)` per edge at `name`, each row carrying that edge's score and count, no self row, and the rows sorted by score descending |
| `Store.RelationshipStore.AllRelationships` | src/lib/actions.ts:200-211 | every edge appears in exactly one row, each row matches its edge, and the rows are sorted by score descending |
| `PairSelection.SameUnorderedIsSameNames` | src/lib/actions.ts:167-172 | the two-orientation test in `isDifferentPair` is exactly equality of the two name sets |
| `PairSelection.PairUp` | src/lib/actions.ts:143-153 | the nested loops produce exactly `(closest[i], closest[j])` for every `i < j`, in loop order |
| `PairSelection.CombinationsCount` | src/lib/actions.ts:146-153 | k names give exactly k(k-1)/2 pairs |
| `PairSelection.CombinationsOfFiveAtMostTen` | src/lib/actions.ts:136-153 | at most five closest people give at most ten indirect pairs |
| `PairSelection.CombinationsMembers` | src/lib/actions.ts:146-153 | a pair is produced exactly when it is `(s[i], s[j])` for some `i < j` |
| `PairSelection.CombinationsDistinct` | src/lib/actions.ts:96-102 | over distinct names, no two produced pairs hold the same two people in either order |
| `PairSelection.DirectPairs` | src/lib/actions.ts:122-128 | the direct pairs are exactly `(selectedUser, other)` for every other person; there are none when the user does not exist; there are `|people| - 1` of them when the user exists |
| `PairSelection.AboveThreshold` | src/lib/actions.ts:133 | the filter keeps exactly the rows scoring above 1240, keeps score-sorted rows sorted and keeps the other names distinct |
| `PairSelection.ClosestPeople` | src/lib/actions.ts:131-140 | at most 5 distinct people, each linked to the selected user by an edge scoring above 1240, in descending score order; anyone qualifying who was left out scores no higher than each chosen person and the list is full; with no edge above 1240 the list is empty |
| `PairSelection.CandidatePool` | src/lib/actions.ts:155-156 | every pool entry is a direct pair `(selectedUser, other)` or a pair of two different closest people; the pool has at most `|people| - 1 + 10` entries |
| `PairSelection.ChooseBiased` | src/lib/actions.ts:159-196 | pair1 is `shuffled[0]`; pair2 is `shuffled[p]` for the least `p >= 1` whose pair differs from pair1 in either order, so every entry before `p` equals pair1; if there is no such entry, including a pool of one, pair2 is pair1; an empty pool is the crash |
| `PairSelection.BiasedChoiceIsUnique` | src/lib/actions.ts:163-190 | the biased outcome is determined by the shuffled pool |
| `PairSelection.BiasedChoiceDiffersWhenPossible` | src/lib/actions.ts:162-178 | whenever the pool holds two different pairs, every shuffle yields two different pairs |
| `PairSelection.FewerThanTwoCombinations` | src/lib/actions.ts:96-106 | fewer than two people pairs exist exactly when there are fewer than 3 people |
| `PairSelection.UnbiasedChoice` | src/lib/actions.ts:104-111 | for any shuffle of all people pairs, the result is "Not enough people to create two comparison pairs" exactly when there are fewer than 3 people; otherwise pair1 and pair2 are `shuffled[0]` and `shuffled[1]`, both are people pairs, and they are different pairs |
| `PairSelection.DirectOnlyWithoutCloseEdges` | src/lib/actions.ts:120-156 | for an existing selected user with no edge above 1240, the pool is exactly the direct pairs: one `(selectedUser, other)` for every other person and nothing else |
| `PairSelection.BiasedChoiceFromPool` | src/lib/actions.ts:159-190 | for any shuffle of a non-empty pool, the biased branch succeeds and both returned pairs are pool entries |
| `PairSelection.ChooseUnbiased` | src/lib/actions.ts:104-111 | fewer than two shuffled rows is the error "Not enough people to create two comparison pairs"; otherwise pair1 and pair2 are the first two rows; when those two differ, the result is also what the biased branch would choose |
| `PairSelection.EmptyPoolExactly` | src/lib/actions.ts:122-160 | the direct-then-indirect pool is empty, so `shuffled[0].person1` throws, exactly when the selected user does not exist or is the only person |
| `PairSelection.GetPairsToCompare` | src/lib/actions.ts:93-197 | with no selected user, or the empty name, the result is the unbiased choice over the shuffled pairs of all people in node-id order; otherwise it is the biased choice over the shuffled direct-then-indirect pool |
| `Comparison.SubmitComparison` | src/lib/actions.ts:297-354 | the new edges are `Submitted` of the old ones; each result is present exactly when its edge exists afterwards; pair1's result carries pair1's names and the first computed score, and is pair1's final row when the two edges differ; when both pairs name one edge, pair1's result is the row between the two updates, so the edge ends with pair2's new score computed from (1200, 1200) and a count one above pair1's returned count; pair2's result is pair2's final row |
| `Comparison.ReadScores` | src/lib/actions.ts:303-316 | the score read returns a row exactly when both edges exist and are two different edges; the row holds the two stored scores, pair1's first |
| `Comparison.ReadScoresUndirected` | src/lib/actions.ts:304-305 | naming either pair in the other order reads the same row |
| `Comparison.SubmittedKeys` | src/lib/actions.ts:316-330 | afterwards both edges exist when all four people do; no other edge is created and no other edge changes |
| `Comparison.SubmittedWithoutRow` | src/lib/actions.ts:316-330 | when the read returns no row, both scores are computed from (1200, 1200), even if one edge existed with another score; each of the two edges ends up with its new score and a count one higher than before, or 1 if it was new |
| `Comparison.SubmittedWithRow` | src/lib/actions.ts:337-346 | when the read finds both edges, the stored scores are passed on; each edge gets its new score and a count one higher |
| `Comparison.SubmittedSameEdge` | src/lib/actions.ts:303-330 | when pair1 and pair2 name the same edge, the read returns no row; the edge is updated twice starting from (1200, 1200) and keeps pair2's new score, with its count two higher |

## Left out

- `calculateNewScores` (src/lib/actions.ts:227-249) is not modelled. It uses `Math.pow` with fractional exponents and `Math.round` on doubles, which is floating point. `SubmitComparison` takes the score computation as a parameter instead.
- `detectCommunities` (src/lib/actions.ts:252-294) is not modelled. It calls the graph-data-science Louvain procedure, which is external.
- The random shuffle is modelled only as "some permutation", never as a distribution.
- `cn` (src/lib/utils.ts:4-6) is not modelled. It is a wrapper over clsx and tailwind-merge.
- `src/lib/db.ts`, the server-action wrappers in `src/app/actions.ts` and all components and pages are not part of this model. They hold the connection, try/catch and rendering. The UI's four-person minimum is presentation only.
- Query and connection failures are not modelled. They raise from the driver.
- Concurrency is not modelled. `submitComparison` reads and then writes without isolation, so lost updates cannot be expressed.
- `Store.RelationshipStore.AddPerson`: requires the name to be new. `CREATE` would add a second node with the same name, and the model assumes unique names.
- `Store.RelationshipStore.CreateOrUpdateRelationship`: requires two different names. With equal names the MERGE would create a self-loop. No caller passes equal names, because every candidate pair holds two different people.
- Node ids are modelled as positions in `people`. Neo4j may reuse the ids of deleted nodes, so the `id(a) < id(b)` orientation of the real rows can differ.
- Row order before `ORDER BY`, and between rows with equal scores, is unspecified in Cypher. The model uses node order and a stable sort. With ties at the fifth place, the real closest-people query may pick a different person of the same score.
- Names are compared by Unicode code point. Neo4j compares strings by UTF-16 code unit, which differs for characters outside the Basic Multilingual Plane.
- JavaScript numbers are modelled as reals, and stored scores and counts as integers. The model does not track that a score written from a JavaScript number becomes a floating-point property. It does not track that the rows' integers arrive as driver integers either, except in `SerializeDriverRecord`.
- `Neo4jValues.Serialize`: objects are maps from key to value.
  - The `for...in` key order is not modelled.
  - Inherited properties are not modelled (`'low' in obj` would also see inherited keys).
  - Other object kinds, such as dates or graph nodes, are not distinguished from plain objects.
- The `IS NOT NULL` test on scores has no counterpart, because every edge in the model has a score.
