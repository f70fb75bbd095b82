/** Orderings used by the ORDER BY clauses of the store's listing queries:
    sequences sorted by a total preorder, built one row at a time, and the
    BINARY text collation of SQLite as a lexicographic order on characters. */
module Ordering {

  ghost predicate Total<T(!new)>(le: (T, T) -> bool) {
    forall a, b :: le(a, b) || le(b, a)
  }

  ghost predicate Transitive<T(!new)>(le: (T, T) -> bool) {
    forall a, b, c :: le(a, b) && le(b, c) ==> le(a, c)
  }

  ghost predicate TotalPreorder<T(!new)>(le: (T, T) -> bool) {
    Total(le) && Transitive(le)
  }

  predicate SortedBy<T>(s: seq<T>, le: (T, T) -> bool) {
    forall i, j :: 0 <= i < j < |s| ==> le(s[i], s[j])
  }

  /** Places x after every element that is not after it, keeping the order. */
  function InsertBy<T(!new)>(s: seq<T>, x: T, le: (T, T) -> bool): (r: seq<T>)
    requires TotalPreorder(le)
    requires SortedBy(s, le)
    ensures SortedBy(r, le)
    ensures multiset(r) == multiset(s) + multiset{x}
  {
    if s == [] then [x]
    else if le(x, s[0]) then
      PrependSorted(s, x, le);
      [x] + s
    else
      var rest := InsertBy(s[1..], x, le);
      assert s == [s[0]] + s[1..];
      assert SortedBy([s[0]] + rest, le) by {
        forall k | 0 <= k < |rest|
          ensures le(s[0], rest[k])
        {
          assert rest[k] in multiset(rest);
          if rest[k] != x {
            assert rest[k] in multiset(s[1..]);
            var j :| 1 <= j < |s| && s[j] == rest[k];
          }
        }
        PrependSorted(rest, s[0], le);
      }
      [s[0]] + rest
  }

  /** Putting in front of a sorted sequence an element that precedes its
      head (or all its elements) keeps it sorted. */
  lemma PrependSorted<T(!new)>(s: seq<T>, x: T, le: (T, T) -> bool)
    requires TotalPreorder(le) && SortedBy(s, le)
    requires s != [] ==> le(x, s[0])
    ensures SortedBy([x] + s, le)
  {
    var r := [x] + s;
    forall i, j | 0 <= i < j < |r|
      ensures le(r[i], r[j])
    {
      if i == 0 && j > 1 {
        assert le(x, s[0]) && le(s[0], s[j - 1]);
      }
    }
  }

  /** A query without ORDER BY: the rows of a set, each once, in some order. */
  method Enumerate<T>(rows: set<T>) returns (s: seq<T>)
    ensures multiset(s) == multiset(rows)
  {
    s := [];
    var todo := rows;
    while todo != {}
      invariant todo <= rows
      invariant multiset(s) + multiset(todo) == multiset(rows)
      decreases |todo|
    {
      var x :| x in todo;
      s := s + [x];
      assert multiset(todo) == multiset(todo - {x}) + multiset{x};
      todo := todo - {x};
    }
  }

  /** A query with ORDER BY: the rows of a set, each once, sorted by le. */
  method SortRows<T(!new)>(rows: set<T>, le: (T, T) -> bool) returns (s: seq<T>)
    requires TotalPreorder(le)
    ensures multiset(s) == multiset(rows)
    ensures SortedBy(s, le)
  {
    s := [];
    var todo := rows;
    while todo != {}
      invariant todo <= rows
      invariant multiset(s) + multiset(todo) == multiset(rows)
      invariant SortedBy(s, le)
      decreases |todo|
    {
      var x :| x in todo;
      s := InsertBy(s, x, le);
      assert multiset(todo) == multiset(todo - {x}) + multiset{x};
      todo := todo - {x};
    }
  }

  /** SQLite's BINARY collation: code-point lexicographic order, a proper
      prefix coming first. */
  predicate LexLe(a: string, b: string)
    decreases |a|
  {
    a == [] || (b != [] && (a[0] < b[0] || (a[0] == b[0] && LexLe(a[1..], b[1..]))))
  }

  lemma {:induction false} LexLeTotal(a: string, b: string)
    ensures LexLe(a, b) || LexLe(b, a)
    decreases |a|
  {
    if a != [] && b != [] && a[0] == b[0] {
      LexLeTotal(a[1..], b[1..]);
    }
  }

  lemma {:induction false} LexLeTransitive(a: string, b: string, c: string)
    requires LexLe(a, b) && LexLe(b, c)
    ensures LexLe(a, c)
    decreases |a|
  {
    if a != [] && a[0] == b[0] && b[0] == c[0] {
      LexLeTransitive(a[1..], b[1..], c[1..]);
    }
  }

  /** LexLe is antisymmetric, so it orders distinct texts strictly. */
  lemma {:induction false} LexLeAntisymmetric(a: string, b: string)
    requires LexLe(a, b) && LexLe(b, a)
    ensures a == b
    decreases |a|
  {
    if a != [] {
      LexLeAntisymmetric(a[1..], b[1..]);
      assert a == [a[0]] + a[1..] && b == [b[0]] + b[1..];
    }
  }
}
