/** Lexicographic order and the sort every backend performs.

    Python compares `str` values by code point, and SQLite's default BINARY
    collation compares UTF-8 bytes, which orders strings the same way; a
    `datetime` compares field by field. Both are lexicographic orders on a
    sequence of integers, so one order, `LexLess`, serves for all of them. A
    sort key is a pair (primary, tie) compared lexicographically, which is
    Python's tuple comparison `(getattr(t, order_by), t.task_id)`. */
module Ordering {

  /** The code points of a string. */
  function Codes(s: string): (r: seq<int>)
    ensures |r| == |s|
    ensures forall i | 0 <= i < |s| :: r[i] == s[i] as int
  {
    seq(|s|, i requires 0 <= i < |s| => s[i] as int)
  }

  lemma CodesInjective(a: string, b: string)
    ensures Codes(a) == Codes(b) ==> a == b
  {
    if Codes(a) == Codes(b) {
      forall i | 0 <= i < |a|
        ensures a[i] == b[i]
      {
        assert Codes(a)[i] == Codes(b)[i];
      }
    }
  }

  lemma CodesAppend(a: string, b: string)
    ensures Codes(a + b) == Codes(a) + Codes(b)
  {
  }

  /** Strict lexicographic order; a proper prefix comes first. */
  predicate LexLess(a: seq<int>, b: seq<int>)
  {
    if |a| == 0 then |b| > 0
    else if |b| == 0 then false
    else if a[0] != b[0] then a[0] < b[0]
    else LexLess(a[1..], b[1..])
  }

  lemma {:induction false} LexIrreflexive(a: seq<int>)
    ensures !LexLess(a, a)
    decreases |a|
  {
    if |a| > 0 {
      LexIrreflexive(a[1..]);
    }
  }

  lemma {:induction false} LexTransitive(a: seq<int>, b: seq<int>, c: seq<int>)
    requires LexLess(a, b) && LexLess(b, c)
    ensures LexLess(a, c)
    decreases |a|
  {
    if |a| > 0 && a[0] == b[0] && b[0] == c[0] {
      LexTransitive(a[1..], b[1..], c[1..]);
    }
  }

  lemma {:induction false} LexTotal(a: seq<int>, b: seq<int>)
    ensures a == b || LexLess(a, b) || LexLess(b, a)
    decreases |a|
  {
    if |a| > 0 && |b| > 0 && a[0] == b[0] {
      LexTotal(a[1..], b[1..]);
      if a[1..] == b[1..] {
        assert a == [a[0]] + a[1..] && b == [b[0]] + b[1..];
      }
    }
  }

  lemma LexAsymmetric(a: seq<int>, b: seq<int>)
    ensures !(LexLess(a, b) && LexLess(b, a))
  {
    if LexLess(a, b) && LexLess(b, a) {
      LexTransitive(a, b, a);
      LexIrreflexive(a);
    }
  }

  /** Comparing two concatenations whose first parts have equal length:
      the first parts decide unless they are equal. */
  lemma {:induction false} LexAppend(x1: seq<int>, y1: seq<int>, x2: seq<int>, y2: seq<int>)
    requires |x1| == |x2|
    ensures LexLess(x1 + y1, x2 + y2) <==> LexLess(x1, x2) || (x1 == x2 && LexLess(y1, y2))
    decreases |x1|
  {
    if |x1| > 0 {
      assert (x1 + y1)[1..] == x1[1..] + y1;
      assert (x2 + y2)[1..] == x2[1..] + y2;
      LexAppend(x1[1..], y1, x2[1..], y2);
      if x1[0] == x2[0] && x1[1..] == x2[1..] {
        assert x1 == [x1[0]] + x1[1..] && x2 == [x2[0]] + x2[1..];
      }
    } else {
      assert x1 + y1 == y1 && x2 + y2 == y2;
    }
  }

  /** A sort key: compared on `primary` first, then on `tie`. */
  datatype Key = Key(primary: seq<int>, tie: seq<int>)

  predicate KeyLess(a: Key, b: Key)
  {
    LexLess(a.primary, b.primary) || (a.primary == b.primary && LexLess(a.tie, b.tie))
  }

  lemma KeyIrreflexive(a: Key)
    ensures !KeyLess(a, a)
  {
    LexIrreflexive(a.primary);
    LexIrreflexive(a.tie);
  }

  lemma KeyTransitive(a: Key, b: Key, c: Key)
    requires KeyLess(a, b) && KeyLess(b, c)
    ensures KeyLess(a, c)
  {
    if LexLess(a.primary, b.primary) && LexLess(b.primary, c.primary) {
      LexTransitive(a.primary, b.primary, c.primary);
    } else if a.primary == b.primary && b.primary == c.primary {
      LexTransitive(a.tie, b.tie, c.tie);
    }
  }

  lemma KeyTotal(a: Key, b: Key)
    ensures a == b || KeyLess(a, b) || KeyLess(b, a)
  {
    LexTotal(a.primary, b.primary);
    LexTotal(a.tie, b.tie);
  }

  lemma KeyAsymmetric(a: Key, b: Key)
    ensures !(KeyLess(a, b) && KeyLess(b, a))
  {
    if KeyLess(a, b) && KeyLess(b, a) {
      KeyTransitive(a, b, a);
      KeyIrreflexive(a);
    }
  }

  /** `s` is strictly ascending by `key`. */
  ghost predicate SortedBy<T>(s: seq<T>, key: T -> Key)
  {
    forall i, j | 0 <= i < j < |s| :: KeyLess(key(s[i]), key(s[j]))
  }

  /** No two elements of `s` share a key (true of tasks with distinct ids). */
  ghost predicate KeysDistinct<T>(s: seq<T>, key: T -> Key)
  {
    forall i, j | 0 <= i < j < |s| :: key(s[i]) != key(s[j])
  }

  /** Putting an element below the first of a sorted sequence keeps it
      sorted. */
  lemma InsertFront<T>(x: T, s: seq<T>, key: T -> Key)
    requires |s| > 0 && KeyLess(key(x), key(s[0]))
    ensures SortedBy(s, key) ==> SortedBy([x] + s, key)
  {
    if SortedBy(s, key) {
      var r := [x] + s;
      forall j | 1 <= j < |r|
        ensures KeyLess(key(x), key(r[j]))
      {
        if j > 1 {
          KeyTransitive(key(x), key(s[0]), key(s[j - 1]));
        }
      }
    }
  }

  /** Inserting past the first element of a sorted sequence: the first
      element stays below everything after it. */
  lemma InsertPast<T>(x: T, s: seq<T>, key: T -> Key, tail: seq<T>)
    requires |s| > 0 && !KeyLess(key(x), key(s[0]))
    requires multiset(tail) == multiset(s[1..]) + multiset{x}
    requires SortedBy(s[1..], key) && (forall i | 0 <= i < |s[1..]| :: key(s[1..][i]) != key(x)) ==> SortedBy(tail, key)
    ensures SortedBy(s, key) && (forall i | 0 <= i < |s| :: key(s[i]) != key(x)) ==> SortedBy([s[0]] + tail, key)
  {
    if SortedBy(s, key) && (forall i | 0 <= i < |s| :: key(s[i]) != key(x)) {
      assert key(s[0]) != key(x);
      KeyTotal(key(x), key(s[0]));
      var r := [s[0]] + tail;
      forall j | 1 <= j < |r|
        ensures KeyLess(key(s[0]), key(r[j]))
      {
        assert r[j] in multiset(tail);
        if r[j] != x {
          assert r[j] in multiset(s[1..]);
          var k :| 0 <= k < |s[1..]| && s[1..][k] == r[j];
          assert s[k + 1] == r[j];
        }
      }
    }
  }

  /** Inserts `x` before the first element whose key is not below its own. */
  function Insert<T>(x: T, s: seq<T>, key: T -> Key): (r: seq<T>)
    ensures multiset(r) == multiset(s) + multiset{x}
    ensures SortedBy(s, key) && (forall i | 0 <= i < |s| :: key(s[i]) != key(x)) ==> SortedBy(r, key)
    decreases |s|
  {
    if |s| == 0 then [x]
    else if KeyLess(key(x), key(s[0])) then
      InsertFront(x, s, key);
      [x] + s
    else
      var tail := Insert(x, s[1..], key);
      assert s == [s[0]] + s[1..];
      InsertPast(x, s, key, tail);
      [s[0]] + tail
  }

  /** With distinct keys, no key of a permutation of the rest equals the
      first key. */
  lemma RestKeysDiffer<T>(s: seq<T>, rest: seq<T>, key: T -> Key)
    requires |s| > 0 && multiset(rest) == multiset(s[1..])
    ensures KeysDistinct(s, key) ==> forall i | 0 <= i < |rest| :: key(rest[i]) != key(s[0])
  {
    if KeysDistinct(s, key) {
      forall i | 0 <= i < |rest|
        ensures key(rest[i]) != key(s[0])
      {
        assert rest[i] in multiset(s[1..]);
        var k :| 0 <= k < |s[1..]| && s[1..][k] == rest[i];
        assert s[k + 1] == rest[i];
      }
    }
  }

  /** Insertion sort; stable, and strictly ascending when keys are distinct. */
  function Sort<T>(s: seq<T>, key: T -> Key): (r: seq<T>)
    ensures multiset(r) == multiset(s)
    ensures |r| == |s|
    ensures KeysDistinct(s, key) ==> SortedBy(r, key)
    decreases |s|
  {
    if |s| == 0 then []
    else
      var rest := Sort(s[1..], key);
      assert s == [s[0]] + s[1..];
      RestKeysDiffer(s, rest, key);
      var r := Insert(s[0], rest, key);
      assert |r| == |multiset(r)| == |s|;
      r
  }

  /** Sorting keeps exactly the elements it was given. */
  lemma SortMembers<T>(s: seq<T>, key: T -> Key, x: T)
    ensures x in Sort(s, key) <==> x in s
  {
    assert x in Sort(s, key) <==> x in multiset(Sort(s, key));
    assert x in s <==> x in multiset(s);
  }

  lemma BothEmptyOrNeither<T>(a: seq<T>, b: seq<T>)
    requires forall x :: x in a <==> x in b
    ensures |a| == 0 <==> |b| == 0
  {
    if |a| > 0 {
      assert a[0] in b;
    }
    if |b| > 0 {
      assert b[0] in a;
    }
  }

  /** Two strictly sorted sequences with the same elements are equal: the
      sorted order of a set of distinct keys is unique. */
  lemma {:induction false} SortedUnique<T>(a: seq<T>, b: seq<T>, key: T -> Key)
    requires SortedBy(a, key) && SortedBy(b, key)
    requires forall x :: x in a <==> x in b
    ensures a == b
    decreases |a|
  {
    BothEmptyOrNeither(a, b);
    if |a| > 0 {
      assert a[0] in b;
      var j :| 0 <= j < |b| && b[j] == a[0];
      assert b[0] in a;
      var i :| 0 <= i < |a| && a[i] == b[0];
      if j > 0 {
        if i > 0 {
          KeyAsymmetric(key(a[0]), key(b[0]));
        } else {
          KeyIrreflexive(key(b[0]));
        }
      }
      assert a[0] == b[0];
      forall x
        ensures x in a[1..] <==> x in b[1..]
      {
        if x in a[1..] {
          var k :| 1 <= k < |a| && a[k] == x;
          assert KeyLess(key(a[0]), key(a[k]));
          KeyIrreflexive(key(a[0]));
          assert x in b;
          var m :| 0 <= m < |b| && b[m] == x;
          assert m != 0;
        }
        if x in b[1..] {
          var k :| 1 <= k < |b| && b[k] == x;
          assert KeyLess(key(b[0]), key(b[k]));
          KeyIrreflexive(key(b[0]));
          assert x in a;
          var m :| 0 <= m < |a| && a[m] == x;
          assert m != 0;
        }
      }
      SortedUnique(a[1..], b[1..], key);
      assert a == [a[0]] + a[1..] && b == [b[0]] + b[1..];
    }
  }
}
