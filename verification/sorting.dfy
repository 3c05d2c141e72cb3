/**
 A reference sort: the ascending order, by a string key, that the table's
 ranking operations ask the C library's `qsort` for. The library's algorithm
 is not modelled; what is modelled is its result, a permutation of the input
 that is ascending by key. For plain strings that result is unique
 (`SortedPermutationUnique`), so any correct sort yields the same sequence.
 */
module Sorting {
  import opened Lex

  /** Every earlier element's key is at most every later element's key. */
  predicate SortedBy<T>(s: seq<T>, key: T -> string) {
    forall i, j :: 0 <= i < j < |s| ==> LessEq(key(s[i]), key(s[j]))
  }

  /** The key that orders plain strings: the string itself. */
  function Identity(s: string): string {
    s
  }

  /** Ascending order of a sequence of strings. */
  predicate Ascending(s: seq<string>) {
    SortedBy(s, Identity)
  }

  /** Inserts `x` before the first element whose key is not smaller than its own. */
  function Insert<T>(x: T, s: seq<T>, key: T -> string): (r: seq<T>)
    requires SortedBy(s, key)
    ensures |r| == |s| + 1
    ensures multiset(r) == multiset(s) + multiset{x}
    ensures SortedBy(r, key)
  {
    if |s| == 0 then
      [x]
    else if LessEq(key(x), key(s[0])) then
      InsertFrontSorted(x, s, key);
      [x] + s
    else
      var tail := Insert(x, s[1..], key);
      assert s == [s[0]] + s[1..];
      Total(key(x), key(s[0]));
      ConsSorted(s[0], tail, key, s[1..], x);
      [s[0]] + tail
  }

  /** Sorts by repeatedly inserting the head into the sorted rest. */
  function SortBy<T>(s: seq<T>, key: T -> string): (r: seq<T>)
    ensures |r| == |s|
    ensures multiset(r) == multiset(s)
    ensures SortedBy(r, key)
  {
    if |s| == 0 then
      []
    else
      var rest := SortBy(s[1..], key);
      assert s == [s[0]] + s[1..];
      Insert(s[0], rest, key)
  }

  lemma InsertFrontSorted<T>(x: T, s: seq<T>, key: T -> string)
    requires |s| > 0 && SortedBy(s, key) && LessEq(key(x), key(s[0]))
    ensures SortedBy([x] + s, key)
  {
    var r := [x] + s;
    forall i, j | 0 <= i < j < |r|
      ensures LessEq(key(r[i]), key(r[j]))
    {
      if i == 0 && j > 1 {
        CompareTransitive(key(x), key(s[0]), key(s[j - 1]));
      }
    }
  }

  lemma ConsSorted<T>(h: T, tail: seq<T>, key: T -> string, rest: seq<T>, x: T)
    requires SortedBy(tail, key) && SortedBy([h] + rest, key)
    requires multiset(tail) == multiset(rest) + multiset{x}
    requires LessEq(key(h), key(x))
    ensures SortedBy([h] + tail, key)
  {
    var r := [h] + tail;
    forall i, j | 0 <= i < j < |r|
      ensures LessEq(key(r[i]), key(r[j]))
    {
      if i == 0 {
        var y := tail[j - 1];
        assert y in multiset(tail);
        if y != x {
          assert y in multiset(rest);
          var k :| 0 <= k < |rest| && rest[k] == y;
          assert ([h] + rest)[0] == h && ([h] + rest)[k + 1] == y;
          assert LessEq(key(h), key(y));
        }
        assert r[0] == h && r[j] == y;
      }
    }
  }

  /** Every element of a sorted prefix is at most every element left out of it. */
  lemma {:induction false} PrefixBelowRest<T>(s: seq<T>, m: nat, key: T -> string)
    requires m <= |s| && SortedBy(s, key)
    ensures forall x, y :: x in s[..m] && y in s[m..] ==> LessEq(key(x), key(y))
  {
    forall x, y | x in s[..m] && y in s[m..]
      ensures LessEq(key(x), key(y))
    {
      var p :| 0 <= p < m && s[..m][p] == x;
      var q :| 0 <= q < |s| - m && s[m..][q] == y;
      assert s[p] == x && s[m + q] == y;
    }
  }

  lemma FirstIsLeast(s: seq<string>, x: string)
    requires Ascending(s) && x in s
    ensures LessEq(s[0], x)
  {
    var p :| 0 <= p < |s| && s[p] == x;
    if p > 0 {
      assert LessEq(Identity(s[0]), Identity(s[p]));
    }
  }

  /** A sorted permutation of strings is unique: any two coincide. */
  lemma {:induction false} SortedPermutationUnique(a: seq<string>, b: seq<string>)
    requires Ascending(a) && Ascending(b)
    requires multiset(a) == multiset(b)
    ensures a == b
    decreases |a|
  {
    assert |b| == |multiset(b)| == |multiset(a)| == |a|;
    if |a| > 0 {
      assert a[0] == b[0] by {
        assert a[0] in multiset(b) && b[0] in multiset(a);
        FirstIsLeast(b, a[0]);
        FirstIsLeast(a, b[0]);
        Antisymmetric(a[0], b[0]);
      }
      DropFirst(a);
      DropFirst(b);
      SortedPermutationUnique(a[1..], b[1..]);
      assert a == [a[0]] + a[1..] && b == [b[0]] + b[1..];
    }
  }

  /** Dropping the first entry removes one occurrence of it. */
  lemma DropFirst<T>(s: seq<T>)
    requires |s| > 0
    ensures multiset(s[1..]) == multiset(s) - multiset{s[0]}
  {
    assert s == [s[0]] + s[1..];
  }
}
