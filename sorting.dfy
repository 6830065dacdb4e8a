/** Orderings and the stable insertion sort that stands for the `ORDER BY` clauses of the queries. */
module Sorting {

  /** `le` is total and transitive, so sorting by it is well defined. */
  ghost predicate TotalPreorder<T(!new)>(le: (T, T) -> bool)
  {
    && (forall a, b :: le(a, b) || le(b, a))
    && (forall a, b, c :: le(a, b) && le(b, c) ==> le(a, c))
  }

  predicate SortedBy<T>(s: seq<T>, le: (T, T) -> bool)
  {
    forall i, j :: 0 <= i < j < |s| ==> le(s[i], s[j])
  }

  /** No two entries of `s` have the same key. */
  predicate DistinctBy<T, K(==)>(s: seq<T>, key: T -> K)
  {
    forall i, j :: 0 <= i < j < |s| ==> key(s[i]) != key(s[j])
  }

  /** Puts `x` in front of the first entry it is not after. */
  function Insert<T(!new)>(x: T, s: seq<T>, le: (T, T) -> bool): (r: seq<T>)
    requires TotalPreorder(le)
    requires SortedBy(s, le)
    ensures SortedBy(r, le)
    ensures multiset(r) == multiset(s) + multiset{x}
  {
    if s == [] then [x]
    else if le(x, s[0]) then [x] + s
    else
      var rest := Insert(x, s[1..], le);
      assert s == [s[0]] + s[1..];
      HeadPrecedes(x, s, rest, le);
      [s[0]] + rest
  }

  /** The head of a sorted `s` that `x` is not before precedes everything the insertion gives. */
  lemma HeadPrecedes<T(!new)>(x: T, s: seq<T>, rest: seq<T>, le: (T, T) -> bool)
    requires TotalPreorder(le)
    requires SortedBy(s, le) && s != [] && !le(x, s[0])
    requires multiset(rest) == multiset(s[1..]) + multiset{x}
    ensures forall k :: 0 <= k < |rest| ==> le(s[0], rest[k])
  {
    assert le(s[0], x);
    forall k | 0 <= k < |rest| ensures le(s[0], rest[k]) {
      assert rest[k] in multiset(rest);
      if rest[k] != x {
        assert rest[k] in multiset(s[1..]);
        var q :| 0 <= q < |s[1..]| && s[1..][q] == rest[k];
        assert s[q + 1] == rest[k];
      }
    }
  }

  /** A sorted permutation of `s`. */
  function InsertionSort<T(!new)>(s: seq<T>, le: (T, T) -> bool): (r: seq<T>)
    requires TotalPreorder(le)
    ensures SortedBy(r, le)
    ensures multiset(r) == multiset(s)
  {
    if s == [] then []
    else
      assert s == [s[0]] + s[1..];
      Insert(s[0], InsertionSort(s[1..], le), le)
  }

  /** Removing the entry at `p` takes exactly that entry out of the multiset. */
  lemma MultisetWithout<T>(s: seq<T>, p: nat)
    requires p < |s|
    ensures multiset(s[..p] + s[p + 1..]) + multiset{s[p]} == multiset(s)
  {
    assert s == s[..p] + [s[p]] + s[p + 1..];
  }

  /** Removing an entry keeps distinct keys distinct, and every other entry stays. */
  lemma DistinctByWithout<T, K>(s: seq<T>, p: nat, key: T -> K)
    requires p < |s| && DistinctBy(s, key)
    ensures DistinctBy(s[..p] + s[p + 1..], key)
    ensures forall x :: x in s[..p] + s[p + 1..] ==> key(x) != key(s[p])
  {
    var s' := s[..p] + s[p + 1..];
    forall i | 0 <= i < |s'| ensures s'[i] == s[if i < p then i else i + 1] {}
  }

  lemma MultisetCancel<T>(a: multiset<T>, b: multiset<T>, x: T)
    requires a + multiset{x} == b + multiset{x}
    ensures a == b
  {
    forall y ensures a[y] == b[y] {
      assert (a + multiset{x})[y] == (b + multiset{x})[y];
    }
  }

  /** A permutation keeps distinct keys distinct. */
  lemma {:induction false} PermutationKeepsDistinctBy<T, K>(s: seq<T>, t: seq<T>, key: T -> K)
    requires multiset(s) == multiset(t)
    requires DistinctBy(s, key)
    ensures DistinctBy(t, key)
  {
    if t != [] {
      assert t[0] in multiset(s);
      var p :| 0 <= p < |s| && s[p] == t[0];
      RemoveMatching(s, t, p);
      DistinctByWithout(s, p, key);
      PermutationKeepsDistinctBy(s[..p] + s[p + 1..], t[1..], key);
      PermutationSameMembers(s[..p] + s[p + 1..], t[1..]);
      DistinctByCons(t[0], t[1..], key);
      assert t == [t[0]] + t[1..];
    }
  }

  /** Taking one matching entry out of two permutations leaves two permutations. */
  lemma RemoveMatching<T>(s: seq<T>, t: seq<T>, p: nat)
    requires multiset(s) == multiset(t)
    requires t != [] && p < |s| && s[p] == t[0]
    ensures multiset(s[..p] + s[p + 1..]) == multiset(t[1..])
  {
    MultisetWithout(s, p);
    MultisetWithout(t, 0);
    assert t[..0] + t[1..] == t[1..];
    MultisetCancel(multiset(s[..p] + s[p + 1..]), multiset(t[1..]), t[0]);
  }

  /** Putting an entry in front of entries with other keys keeps keys distinct. */
  lemma DistinctByCons<T, K>(x: T, s: seq<T>, key: T -> K)
    requires DistinctBy(s, key)
    requires forall y :: y in s ==> key(x) != key(y)
    ensures DistinctBy([x] + s, key)
  {
    var t := [x] + s;
    forall i, j | 0 <= i < j < |t| ensures key(t[i]) != key(t[j]) {
      assert t[j] == s[j - 1];
      if i > 0 {
        assert t[i] == s[i - 1];
      }
    }
  }

  /** A permutation has the same members. */
  lemma PermutationSameMembers<T>(s: seq<T>, t: seq<T>)
    requires multiset(s) == multiset(t)
    ensures forall x :: x in s <==> x in t
  {
    forall x ensures x in s <==> x in t {
      assert x in s <==> x in multiset(s);
      assert x in t <==> x in multiset(t);
    }
  }

  /** Lexicographic order on names by character code, as `ORDER BY name` compares strings. */
  predicate NameLe(a: string, b: string)
  {
    if a == [] then true
    else if b == [] then false
    else if a[0] != b[0] then a[0] < b[0]
    else NameLe(a[1..], b[1..])
  }

  lemma {:induction false} NameLeTotal(a: string, b: string)
    ensures NameLe(a, b) || NameLe(b, a)
  {
    if a != [] && b != [] && a[0] == b[0] {
      NameLeTotal(a[1..], b[1..]);
    }
  }

  lemma {:induction false} NameLeTransitive(a: string, b: string, c: string)
    requires NameLe(a, b) && NameLe(b, c)
    ensures NameLe(a, c)
  {
    if a != [] && b != [] && c != [] && a[0] == b[0] && b[0] == c[0] {
      NameLeTransitive(a[1..], b[1..], c[1..]);
    }
  }

  lemma {:induction false} NameLeAntisymmetric(a: string, b: string)
    requires NameLe(a, b) && NameLe(b, a)
    ensures a == b
  {
    if a != [] && b != [] {
      NameLeAntisymmetric(a[1..], b[1..]);
      assert a == [a[0]] + a[1..] && b == [b[0]] + b[1..];
    }
  }

  /** Under a reflexive, antisymmetric order, two sorted permutations are the same list. */
  lemma {:induction false} SortedPermutationsEqual<T(!new)>(s: seq<T>, t: seq<T>, le: (T, T) -> bool)
    requires forall a :: le(a, a)
    requires forall a, b :: le(a, b) && le(b, a) ==> a == b
    requires multiset(s) == multiset(t)
    requires SortedBy(s, le) && SortedBy(t, le)
    ensures s == t
    decreases |s|
  {
    if s == [] {
      assert |t| == |multiset(t)| == 0;
    } else {
      var s', t' := s[1..], t[1..];
      SameHead(s, t, le);
      SortedTail(s, s', le);
      SortedTail(t, t', le);
      SortedPermutationsEqual(s', t', le);
      assert s == [s[0]] + s';
      assert t == [t[0]] + t';
    }
  }

  /** Two non-empty sorted permutations start with the same entry, and what follows
      it holds the same entries in both. */
  lemma SameHead<T(!new)>(s: seq<T>, t: seq<T>, le: (T, T) -> bool)
    requires forall a :: le(a, a)
    requires forall a, b :: le(a, b) && le(b, a) ==> a == b
    requires multiset(s) == multiset(t)
    requires SortedBy(s, le) && SortedBy(t, le) && s != []
    ensures t != [] && s[0] == t[0]
    ensures multiset(s[1..]) == multiset(t[1..])
  {
    assert |t| == |multiset(t)| == |multiset(s)| == |s|;
    assert t[0] in multiset(s) && s[0] in multiset(t);
    HeadIsLeast(s, t[0], le);
    HeadIsLeast(t, s[0], le);
    RemoveMatching(s, t, 0);
    assert s[..0] + s[1..] == s[1..];
  }

  /** What follows the head of a sorted list is sorted. */
  lemma SortedTail<T>(s: seq<T>, rest: seq<T>, le: (T, T) -> bool)
    requires SortedBy(s, le) && s != [] && rest == s[1..]
    ensures SortedBy(rest, le)
  {
    forall i, j | 0 <= i < j < |rest| ensures le(rest[i], rest[j]) {
      assert rest[i] == s[i + 1] && rest[j] == s[j + 1];
    }
  }

  /** The head of a sorted list comes no later than any of its members. */
  lemma HeadIsLeast<T(!new)>(s: seq<T>, x: T, le: (T, T) -> bool)
    requires forall a :: le(a, a)
    requires SortedBy(s, le) && s != [] && x in multiset(s)
    ensures le(s[0], x)
  {
    var k :| 0 <= k < |s| && s[k] == x;
  }

  /** Two name-sorted lists with the same names are the same list. */
  lemma SortedByNameIsUnique(s: seq<string>, t: seq<string>)
    requires multiset(s) == multiset(t)
    requires SortedBy(s, NameLe) && SortedBy(t, NameLe)
    ensures s == t
  {
    forall a ensures NameLe(a, a) {
      NameLeTotal(a, a);
    }
    forall a, b | NameLe(a, b) && NameLe(b, a) ensures a == b {
      NameLeAntisymmetric(a, b);
    }
    SortedPermutationsEqual(s, t, NameLe);
  }

  lemma NameLeIsTotalPreorder()
    ensures TotalPreorder(NameLe)
  {
    forall a, b ensures NameLe(a, b) || NameLe(b, a) {
      NameLeTotal(a, b);
    }
    forall a, b, c | NameLe(a, b) && NameLe(b, c) ensures NameLe(a, c) {
      NameLeTransitive(a, b, c);
    }
  }
}
