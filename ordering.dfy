/**
 * The `where ... orderBy(column)` shape of the store's queries: selecting
 * the rows a predicate keeps and ordering them by a text column. Columns are
 * compared by code point.
 */
module Ordering {

  /** `a` sorts no later than `b` in code-point lexicographic order. */
  predicate StrLe(a: string, b: string)
  {
    a == [] || (b != [] && (a[0] < b[0] || (a[0] == b[0] && StrLe(a[1..], b[1..]))))
  }

  lemma {:induction false} StrLeReflexive(a: string)
    ensures StrLe(a, a)
  {
    if a != [] {
      StrLeReflexive(a[1..]);
    }
  }

  lemma {:induction false} StrLeTotal(a: string, b: string)
    ensures StrLe(a, b) || StrLe(b, a)
  {
    if a != [] && b != [] && a[0] == b[0] {
      StrLeTotal(a[1..], b[1..]);
    }
  }

  lemma {:induction false} StrLeTransitive(a: string, b: string, c: string)
    requires StrLe(a, b) && StrLe(b, c)
    ensures StrLe(a, c)
  {
    if a != [] && a[0] == b[0] && b[0] == c[0] {
      StrLeTransitive(a[1..], b[1..], c[1..]);
    }
  }

  lemma {:induction false} StrLeAntisymmetric(a: string, b: string)
    requires StrLe(a, b) && StrLe(b, a)
    ensures a == b
  {
    if a != [] && b != [] {
      StrLeAntisymmetric(a[1..], b[1..]);
      assert a == [a[0]] + a[1..] && b == [b[0]] + b[1..];
    }
  }

  /** Ordered by `key`, non-decreasing, over every pair of positions. */
  predicate SortedBy<T>(s: seq<T>, key: T -> string)
  {
    forall i, j :: 0 <= i < j < |s| ==> StrLe(key(s[i]), key(s[j]))
  }

  predicate NoDuplicates<T(==)>(s: seq<T>)
  {
    forall i, j :: 0 <= i < j < |s| ==> s[i] != s[j]
  }

  lemma SortedCons<T>(x: T, s: seq<T>, key: T -> string)
    requires SortedBy(s, key)
    requires s != [] ==> StrLe(key(x), key(s[0]))
    ensures SortedBy([x] + s, key)
  {
    forall i, j | 0 <= i < j < |[x] + s|
      ensures StrLe(key(([x] + s)[i]), key(([x] + s)[j]))
    {
      if i == 0 && j > 1 {
        StrLeTransitive(key(x), key(s[0]), key(s[j - 1]));
      }
    }
  }

  /** Insertion of `x` into a sorted sequence: the result is sorted and holds `x` besides the old elements. */
  function InsertBy<T>(s: seq<T>, x: T, key: T -> string): (r: seq<T>)
    requires SortedBy(s, key)
    ensures SortedBy(r, key)
    ensures multiset(r) == multiset(s) + multiset{x}
  {
    if s == [] then [x]
    else if StrLe(key(x), key(s[0])) then
      SortedCons(x, s, key);
      [x] + s
    else
      var rest := InsertBy(s[1..], x, key);
      assert s == [s[0]] + s[1..];
      StrLeTotal(key(x), key(s[0]));
      assert rest[0] in multiset(s[1..]) + multiset{x};
      SortedCons(s[0], rest, key);
      [s[0]] + rest
  }

  /** The elements of the insertion are the old ones and `x`. */
  lemma InsertByMembers<T>(s: seq<T>, x: T, key: T -> string)
    requires SortedBy(s, key)
    ensures forall y :: y in InsertBy(s, x, key) <==> y in s || y == x
  {
    var r := InsertBy(s, x, key);
    forall y ensures y in r <==> y in s || y == x {
      assert y in r <==> y in multiset(r);
      assert y in s <==> y in multiset(s);
    }
  }

  /** Inserting an element that is not there yet keeps the elements distinct. */
  lemma {:induction false} InsertByKeepsDistinct<T>(s: seq<T>, x: T, key: T -> string)
    requires SortedBy(s, key) && NoDuplicates(s) && x !in s
    ensures NoDuplicates(InsertBy(s, x, key))
  {
    if s != [] && !StrLe(key(x), key(s[0])) {
      assert s == [s[0]] + s[1..];
      InsertByKeepsDistinct(s[1..], x, key);
      var rest := InsertBy(s[1..], x, key);
      assert s[0] !in s[1..];
      assert s[0] !in multiset(rest);
      assert InsertBy(s, x, key) == [s[0]] + rest;
    }
  }

  /**
   * The rows of `m` that `keep` accepts, each once, ordered by `key`. The
   * order among rows with equal keys is left open, as it is in SQL.
   */
  method SelectSorted<T(==)>(m: map<int, T>, keep: T -> bool, key: T -> string) returns (result: seq<T>)
    ensures forall x :: x in result <==> x in m.Values && keep(x)
    ensures SortedBy(result, key)
    ensures NoDuplicates(result)
  {
    result := [];
    var todo := m.Values;
    while todo != {}
      invariant todo <= m.Values
      invariant forall x :: x in result <==> x in m.Values - todo && keep(x)
      invariant SortedBy(result, key)
      invariant NoDuplicates(result)
      decreases todo
    {
      var x :| x in todo;
      if keep(x) {
        InsertByKeepsDistinct(result, x, key);
        InsertByMembers(result, x, key);
        result := InsertBy(result, x, key);
      }
      todo := todo - {x};
    }
  }
}
