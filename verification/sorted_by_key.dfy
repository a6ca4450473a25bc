/** The stable sort by a numeric key, and what unique keys make of it. */
module SortedByKey {
  import opened Sequences

  function Insert<T>(key: T -> int, x: T, s: seq<T>): (r: seq<T>)
    ensures multiset(r) == multiset{x} + multiset(s)
  {
    if s == [] || key(x) <= key(s[0]) then [x] + s
    else
      assert s == [s[0]] + s[1..];
      [s[0]] + Insert(key, x, s[1..])
  }

  function Sort<T>(key: T -> int, s: seq<T>): (r: seq<T>)
    ensures multiset(r) == multiset(s)
  {
    if s == [] then []
    else
      assert s == [s[0]] + s[1..];
      Insert(key, s[0], Sort(key, s[1..]))
  }

  ghost predicate Ascending<T>(key: T -> int, s: seq<T>) {
    forall i, j :: 0 <= i < j < |s| ==> key(s[i]) < key(s[j])
  }

  ghost predicate UniqueBy<T>(key: T -> int, s: seq<T>) {
    forall i, j :: 0 <= i < j < |s| ==> key(s[i]) != key(s[j])
  }

  lemma {:induction false} InsertAscends<T>(key: T -> int, x: T, s: seq<T>)
    requires Ascending(key, s) && forall y <- s :: key(y) != key(x)
    ensures Ascending(key, Insert(key, x, s))
  {
    if s != [] && key(x) > key(s[0]) {
      InsertAscends(key, x, s[1..]);
      var rest := Insert(key, x, s[1..]);
      forall y | y in rest ensures key(s[0]) < key(y) {
        assert y in multiset(rest);
        assert y == x || y in s[1..];
      }
    }
  }

  lemma {:induction false} SortAscends<T>(key: T -> int, s: seq<T>)
    requires UniqueBy(key, s)
    ensures Ascending(key, Sort(key, s))
  {
    if s != [] {
      SortAscends(key, s[1..]);
      var rest := Sort(key, s[1..]);
      forall y | y in rest ensures key(y) != key(s[0]) {
        assert y in multiset(rest);
        assert y in s[1..];
      }
      InsertAscends(key, s[0], rest);
    }
  }

  lemma SameHead<T>(key: T -> int, a: seq<T>, b: seq<T>)
    requires a != [] && b != [] && Ascending(key, a) && Ascending(key, b) && multiset(a) == multiset(b)
    ensures a[0] == b[0]
  {
    assert a[0] in multiset(b) && b[0] in multiset(a);
    var i :| 0 <= i < |b| && b[i] == a[0];
    var j :| 0 <= j < |a| && a[j] == b[0];
  }

  /** An ascending arrangement is unique. */
  lemma {:induction false} AscendingUnique<T>(key: T -> int, a: seq<T>, b: seq<T>)
    requires Ascending(key, a) && Ascending(key, b) && multiset(a) == multiset(b)
    ensures a == b
  {
    assert |a| == |multiset(a)| == |multiset(b)| == |b|;
    if a != [] {
      SameHead(key, a, b);
      HeadCounts(a);
      HeadCounts(b);
      Cancel(multiset(a[1..]), multiset(b[1..]), a[0]);
      AscendingUnique(key, a[1..], b[1..]);
      assert a == [a[0]] + a[1..] && b == [b[0]] + b[1..];
    }
  }

  lemma {:induction false} AscendingOnce<T>(key: T -> int, s: seq<T>, x: T)
    requires Ascending(key, s)
    ensures multiset(s)[x] <= 1
  {
    if s != [] {
      assert s == [s[0]] + s[1..];
      assert s[0] !in s[1..];
      AscendingOnce(key, s[1..], x);
    }
  }

  /** Whether keys are unique does not depend on the order. */
  lemma UniquePermutes<T>(key: T -> int, a: seq<T>, b: seq<T>)
    requires multiset(a) == multiset(b) && UniqueBy(key, a)
    ensures UniqueBy(key, b)
  {
    SortAscends(key, a);
    var s := Sort(key, a);
    forall i, j | 0 <= i < j < |b| ensures key(b[i]) != key(b[j]) {
      if key(b[i]) == key(b[j]) {
        assert b[i] in multiset(s) && b[j] in multiset(s);
        assert b[i] == b[j];
        AscendingOnce(key, s, b[i]);
        TwiceCounts(b, i, j);
      }
    }
  }
}
