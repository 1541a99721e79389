/** Go's string ordering (byte-wise lexicographic, as `<` on strings and
    `sort.Strings` use it) and the facts about sorted, duplicate-free
    sequences of strings that the start-order resolver needs. Characters are
    compared by code point, which orders valid UTF-8 text as its bytes do. */
module Lex {

  /** a <= b in Go's string order. */
  predicate Le(a: string, b: string)
    decreases |a|
  {
    a == [] || (b != [] && (a[0] < b[0] || (a[0] == b[0] && Le(a[1..], b[1..]))))
  }

  lemma {:induction false} LeRefl(a: string)
    ensures Le(a, a)
  {
    if a != [] {
      LeRefl(a[1..]);
    }
  }

  lemma {:induction false} LeAntisym(a: string, b: string)
    requires Le(a, b) && Le(b, a)
    ensures a == b
  {
    if a != [] && b != [] {
      LeAntisym(a[1..], b[1..]);
      assert a == [a[0]] + a[1..] && b == [b[0]] + b[1..];
    }
  }

  lemma {:induction false} LeTrans(a: string, b: string, c: string)
    requires Le(a, b) && Le(b, c)
    ensures Le(a, c)
  {
    if a != [] && b != [] && c != [] && a[0] == b[0] == c[0] {
      LeTrans(a[1..], b[1..], c[1..]);
    }
  }

  lemma {:induction false} LeTotal(a: string, b: string)
    ensures Le(a, b) || Le(b, a)
  {
    if a != [] && b != [] && a[0] == b[0] {
      LeTotal(a[1..], b[1..]);
    }
  }

  predicate Sorted(s: seq<string>) {
    forall i, j :: 0 <= i < j < |s| ==> Le(s[i], s[j])
  }

  predicate Distinct<T(==)>(s: seq<T>) {
    forall i, j :: 0 <= i < j < |s| ==> s[i] != s[j]
  }

  function Elements<T>(s: seq<T>): set<T> {
    set x | x in s
  }

  /** Inserts `x` into a sorted sequence after the elements that are <= it. */
  function Insert(x: string, s: seq<string>): (r: seq<string>)
    requires Sorted(s)
    ensures Sorted(r)
    ensures multiset(r) == multiset(s) + multiset{x}
  {
    if s == [] then [x]
    else if Le(x, s[0]) then
      InsertFront(x, s);
      [x] + s
    else
      var t := Insert(x, s[1..]);
      LeTotal(x, s[0]);
      InsertBehind(x, s, t);
      [s[0]] + t
  }

  lemma InsertFront(x: string, s: seq<string>)
    requires Sorted(s) && s != [] && Le(x, s[0])
    ensures Sorted([x] + s)
  {
    forall j | 0 < j < |s| ensures Le(x, s[j]) { LeTrans(x, s[0], s[j]); }
  }

  lemma InsertBehind(x: string, s: seq<string>, t: seq<string>)
    requires Sorted(s) && s != [] && Le(s[0], x)
    requires Sorted(t) && multiset(t) == multiset(s[1..]) + multiset{x}
    ensures Sorted([s[0]] + t)
    ensures multiset([s[0]] + t) == multiset(s) + multiset{x}
  {
    forall j | 0 <= j < |t| ensures Le(s[0], t[j]) {
      var y := t[j];
      assert y in multiset(t);
      if y != x {
        assert y in multiset(s[1..]);
        var k :| 0 <= k < |s[1..]| && s[1..][k] == y;
        assert s[k + 1] == y;
      }
    }
    assert s == [s[0]] + s[1..];
  }

  /** sort.Strings: a sorted permutation of its input. */
  function Sort(s: seq<string>): (r: seq<string>)
    ensures Sorted(r)
    ensures multiset(r) == multiset(s)
  {
    if s == [] then []
    else
      assert s == [s[0]] + s[1..];
      Insert(s[0], Sort(s[1..]))
  }

  /** A sorted order of a multiset is unique: sorting is deterministic. */
  lemma {:induction false} SortedUnique(a: seq<string>, b: seq<string>)
    requires Sorted(a) && Sorted(b) && multiset(a) == multiset(b)
    ensures a == b
  {
    if a != [] {
      SortedHeadsEqual(a, b);
      TailMultiset(a);
      TailMultiset(b);
      SortedUnique(a[1..], b[1..]);
      assert a == [a[0]] + a[1..] && b == [b[0]] + b[1..];
    } else {
      assert |b| == |multiset(b)| == 0;
    }
  }

  /** Two sorted sequences with the same elements start with the same element. */
  lemma SortedHeadsEqual(a: seq<string>, b: seq<string>)
    requires Sorted(a) && Sorted(b) && multiset(a) == multiset(b) && a != []
    ensures b != [] && a[0] == b[0]
  {
    assert a[0] in multiset(b);
    assert b[0] in multiset(a);
    var i :| 0 <= i < |a| && a[i] == b[0];
    var k :| 0 <= k < |b| && b[k] == a[0];
    if i > 0 { assert Le(a[0], a[i]); } else { LeRefl(a[0]); }
    if k > 0 { assert Le(b[0], b[k]); } else { LeRefl(b[0]); }
    LeAntisym(a[0], b[0]);
  }

  lemma TailMultiset(a: seq<string>)
    requires a != []
    ensures Sorted(a) ==> Sorted(a[1..])
    ensures multiset(a[1..]) == multiset(a) - multiset{a[0]}
  {
    assert a == [a[0]] + a[1..];
    if Sorted(a) {
      forall i, j | 0 <= i < j < |a| - 1 ensures Le(a[1..][i], a[1..][j]) {
        assert a[1..][i] == a[i + 1] && a[1..][j] == a[j + 1];
      }
    }
  }

  /** In a duplicate-free sequence every element occurs exactly once. */
  lemma {:induction false} DistinctMultiplicity<T>(s: seq<T>, x: T)
    requires Distinct(s)
    ensures multiset(s)[x] == if x in s then 1 else 0
  {
    if s != [] {
      DistinctMultiplicity(s[1..], x);
      assert s == [s[0]] + s[1..];
    }
  }

  /** Two duplicate-free sequences with the same elements are permutations of each other. */
  lemma DistinctSameElements<T>(a: seq<T>, b: seq<T>)
    requires Distinct(a) && Distinct(b) && Elements(a) == Elements(b)
    ensures multiset(a) == multiset(b)
  {
    forall x ensures multiset(a)[x] == multiset(b)[x] {
      DistinctMultiplicity(a, x);
      DistinctMultiplicity(b, x);
      assert x in a <==> x in Elements(a);
      assert x in b <==> x in Elements(b);
    }
  }

  /** A duplicate-free sequence has as many elements as its set of elements. */
  lemma {:induction false} DistinctCard<T>(s: seq<T>)
    requires Distinct(s)
    ensures |Elements(s)| == |s|
  {
    if s != [] {
      DistinctCard(s[1..]);
      assert Elements(s) == {s[0]} + Elements(s[1..]);
      assert s[0] !in Elements(s[1..]);
    }
  }

  /** The least element of a finite non-empty set of strings. */
  ghost function Least(S: set<string>): (m: string)
    requires S != {}
    ensures m in S && forall y :: y in S ==> Le(m, y)
    decreases S
  {
    var x :| x in S;
    if S == {x} then
      LeRefl(x);
      x
    else
      var m := Least(S - {x});
      LeTotal(x, m);
      if Le(x, m) then
        assert forall y :: y in S ==> Le(x, y) by {
          forall y | y in S ensures Le(x, y) {
            if y == x { LeRefl(x); } else { LeTrans(x, m, y); }
          }
        }
        x
      else
        m
  }

  /** The elements of a set in ascending order: what sorting any
      duplicate-free enumeration of the set yields. */
  ghost function Ascending(S: set<string>): (r: seq<string>)
    ensures Sorted(r) && Distinct(r) && Elements(r) == S
    decreases S
  {
    if S == {} then []
    else
      var m := Least(S);
      var rest := Ascending(S - {m});
      LeastFirst(m, S, rest);
      [m] + rest
  }

  lemma LeastFirst(m: string, S: set<string>, rest: seq<string>)
    requires m in S && (forall y :: y in S ==> Le(m, y))
    requires Sorted(rest) && Distinct(rest) && Elements(rest) == S - {m}
    ensures Sorted([m] + rest) && Distinct([m] + rest) && Elements([m] + rest) == S
  {
    forall j | 0 <= j < |rest| ensures Le(m, rest[j]) && rest[j] != m {
      assert rest[j] in Elements(rest);
    }
    assert Elements([m] + rest) == {m} + Elements(rest);
  }

  /** Sorting a duplicate-free enumeration of S gives S in ascending order,
      whatever order the enumeration came in. */
  lemma SortEnumeration(names: seq<string>, S: set<string>)
    requires Distinct(names) && Elements(names) == S
    ensures Sort(names) == Ascending(S)
  {
    DistinctSameElements(names, Ascending(S));
    SortedUnique(Sort(names), Ascending(S));
  }

  /** The first element of a sorted duplicate-free sequence is the least of its elements. */
  lemma SortedHeadIsLeast(q: seq<string>)
    requires Sorted(q) && Distinct(q) && q != []
    ensures q[0] in Elements(q) && q[0] == Least(Elements(q))
  {
    assert q[0] in Elements(q);
    var m := Least(Elements(q));
    var k :| 0 <= k < |q| && q[k] == m;
    if k > 0 {
      assert Le(q[0], q[k]);
      assert q[0] in Elements(q);
      LeAntisym(q[0], m);
    }
  }

  /** A permutation has the same elements. */
  lemma PermutationKeepsElements<T>(a: seq<T>, b: seq<T>)
    requires multiset(a) == multiset(b)
    ensures Elements(a) == Elements(b)
  {
    forall x ensures x in a <==> x in b {
      assert x in a <==> x in multiset(a);
      assert x in b <==> x in multiset(b);
    }
  }
}
