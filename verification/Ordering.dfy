/** Stable sorting by a key order, as Python's `sorted` and `list.sort` do it, and the order on
    strings they use.  Everything the programs sort (trace rows, sweep events, object members, tree
    records, urgent jobs) goes through `Sort`.
 */
module Ordering {

  ghost predicate TotalPreorder<T(!new)>(leq: (T, T) -> bool) {
    && (forall x, y :: leq(x, y) || leq(y, x))
    && (forall x, y, z :: leq(x, y) && leq(y, z) ==> leq(x, z))
  }

  /** No two different members of `s` tie. */
  ghost predicate AntisymmetricOn<T>(leq: (T, T) -> bool, s: seq<T>) {
    forall x, y :: x in s && y in s && leq(x, y) && leq(y, x) ==> x == y
  }

  ghost predicate Sorted<T>(leq: (T, T) -> bool, s: seq<T>) {
    forall i, j :: 0 <= i < j < |s| ==> leq(s[i], s[j])
  }

  ghost predicate NoDuplicates<T>(s: seq<T>) {
    forall i, j :: 0 <= i < j < |s| ==> s[i] != s[j]
  }

  function Insert<T>(leq: (T, T) -> bool, x: T, s: seq<T>): (r: seq<T>)
    ensures |r| == |s| + 1
    ensures multiset(r) == multiset{x} + multiset(s)
  {
    if s == [] || leq(x, s[0]) then [x] + s
    else
      assert s == [s[0]] + s[1..];
      [s[0]] + Insert(leq, x, s[1..])
  }

  function Sort<T>(leq: (T, T) -> bool, s: seq<T>): (r: seq<T>)
    ensures |r| == |s|
    ensures multiset(r) == multiset(s)
  {
    if s == [] then []
    else
      assert s == [s[0]] + s[1..];
      Insert(leq, s[0], Sort(leq, s[1..]))
  }

  lemma {:induction false} InsertSorted<T(!new)>(leq: (T, T) -> bool, x: T, s: seq<T>)
    requires TotalPreorder(leq) && Sorted(leq, s)
    ensures Sorted(leq, Insert(leq, x, s))
  {
    if s != [] && !leq(x, s[0]) {
      InsertSorted(leq, x, s[1..]);
      var r := Insert(leq, x, s[1..]);
      forall k | 0 <= k < |r| ensures leq(s[0], r[k]) {
        assert r[k] in multiset(r);
        assert r[k] == x || r[k] in s[1..];
      }
    }
  }

  lemma {:induction false} SortSorted<T(!new)>(leq: (T, T) -> bool, s: seq<T>)
    requires TotalPreorder(leq)
    ensures Sorted(leq, Sort(leq, s))
  {
    if s != [] {
      SortSorted(leq, s[1..]);
      InsertSorted(leq, s[0], Sort(leq, s[1..]));
    }
  }

  lemma SortedPair<T>(leq: (T, T) -> bool, b: T, a: T)
    requires leq(a, b) && !leq(b, a)
    ensures Sort(leq, [b, a]) == [a, b]
  {
    assert [b, a][1..] == [a] && [a][1..] == [];
    assert Sort(leq, [a]) == Insert(leq, a, []) == [a];
    assert Sort(leq, [b, a]) == Insert(leq, b, [a]) == [a] + Insert(leq, b, []) == [a, b];
  }

  lemma {:induction false} SortOfSorted<T>(leq: (T, T) -> bool, s: seq<T>)
    requires Sorted(leq, s)
    ensures Sort(leq, s) == s
  {
    if s != [] {
      SortOfSorted(leq, s[1..]);
      assert s == [s[0]] + s[1..];
      assert |s| > 1 ==> leq(s[0], s[1]);
    }
  }

  lemma {:induction false} SameMembers<T>(a: seq<T>, b: seq<T>)
    requires multiset(a) == multiset(b)
    ensures |a| == |b|
    ensures forall x :: x in a <==> x in b
  {
    assert |multiset(a)| == |a| && |multiset(b)| == |b|;
    forall x ensures x in a <==> x in b {
      assert x in a <==> x in multiset(a);
      assert x in b <==> x in multiset(b);
    }
  }

  lemma TailMultiset<T>(s: seq<T>)
    requires s != []
    ensures multiset(s[1..]) == multiset(s) - multiset{s[0]}
  {
    assert s == [s[0]] + s[1..];
  }

  lemma Without<T>(s: seq<T>, i: nat)
    requires i < |s|
    ensures multiset(s[..i] + s[i+1..]) == multiset(s) - multiset{s[i]}
  {
    assert s == s[..i] + [s[i]] + s[i+1..];
  }

  /** Taking the same value out of two bags leaves the same bag. */
  lemma TakeOut<T>(a: seq<T>, i: nat, b: seq<T>, k: nat)
    requires i < |a| && k < |b| && a[i] == b[k] && multiset(a) == multiset(b)
    ensures multiset(a[..i] + a[i+1..]) == multiset(b[..k] + b[k+1..])
  {
    Without(a, i);
    Without(b, k);
  }

  /** A sorted arrangement of a bag of values is unique when no two of them tie. */
  lemma {:induction false} SortedUnique<T(!new)>(leq: (T, T) -> bool, a: seq<T>, b: seq<T>)
    requires TotalPreorder(leq) && AntisymmetricOn(leq, a)
    requires Sorted(leq, a) && Sorted(leq, b) && multiset(a) == multiset(b)
    ensures a == b
  {
    SameMembers(a, b);
    if a != [] {
      assert a[0] in b && b[0] in a;
      assert a[0] == b[0];
      TailMultiset(a);
      TailMultiset(b);
      SortedUnique(leq, a[1..], b[1..]);
      assert a == [a[0]] + a[1..] && b == [b[0]] + b[1..];
    }
  }

  /** Sorting forgets the order the values came in, and nothing else. */
  lemma SortCanonical<T(!new)>(leq: (T, T) -> bool, a: seq<T>, b: seq<T>)
    requires TotalPreorder(leq) && AntisymmetricOn(leq, a)
    ensures Sort(leq, a) == Sort(leq, b) <==> multiset(a) == multiset(b)
  {
    SortSorted(leq, a);
    SortSorted(leq, b);
    if multiset(a) == multiset(b) {
      SameMembers(a, Sort(leq, a));
      SortedUnique(leq, Sort(leq, a), Sort(leq, b));
    }
  }

  lemma {:induction false} OnceEach<T>(s: seq<T>)
    ensures NoDuplicates(s) <==> forall x :: multiset(s)[x] <= 1
  {
    if s != [] {
      OnceEach(s[1..]);
      assert s == [s[0]] + s[1..];
      assert NoDuplicates(s) <==> NoDuplicates(s[1..]) && s[0] !in s[1..];
      assert s[0] in s[1..] <==> multiset(s)[s[0]] >= 2;
      assert forall x :: multiset(s[1..])[x] <= multiset(s)[x];
    }
  }

  lemma NoDuplicatesPermutation<T>(a: seq<T>, b: seq<T>)
    requires multiset(a) == multiset(b)
    ensures NoDuplicates(a) <==> NoDuplicates(b)
  {
    OnceEach(a);
    OnceEach(b);
  }

  lemma {:induction false} SubsetOfSameLength<T>(a: seq<T>, b: seq<T>)
    requires NoDuplicates(a) && |a| == |b| && forall x :: x in a ==> x in b
    ensures multiset(a) == multiset(b)
  {
    if a != [] {
      assert a[0] in b;
      var k :| 0 <= k < |b| && b[k] == a[0];
      var b' := b[..k] + b[k+1..];
      assert b == b[..k] + [b[k]] + b[k+1..];
      forall x | x in a[1..] ensures x in b' {
        assert x in b && x != b[k];
      }
      SubsetOfSameLength(a[1..], b');
      assert a == [a[0]] + a[1..];
      assert multiset(b) == multiset(b') + multiset{b[k]};
    }
  }

  // Lexicographic order on code points (Python `str`) or bytes.

  predicate LexLeq(a: seq<int>, b: seq<int>) {
    a == [] || (b != [] && (a[0] < b[0] || (a[0] == b[0] && LexLeq(a[1..], b[1..]))))
  }

  lemma {:induction false} LexTotal(a: seq<int>, b: seq<int>)
    ensures LexLeq(a, b) || LexLeq(b, a)
    ensures LexLeq(a, b) && LexLeq(b, a) ==> a == b
  {
    if a != [] && b != [] && a[0] == b[0] {
      LexTotal(a[1..], b[1..]);
      assert a == [a[0]] + a[1..] && b == [b[0]] + b[1..];
    }
  }

  lemma {:induction false} LexTransitive(a: seq<int>, b: seq<int>, c: seq<int>)
    requires LexLeq(a, b) && LexLeq(b, c)
    ensures LexLeq(a, c)
  {
    if a != [] && a[0] == b[0] == c[0] {
      LexTransitive(a[1..], b[1..], c[1..]);
    }
  }

  lemma LexIsTotalOrder()
    ensures TotalPreorder(LexLeq)
    ensures forall a, b :: LexLeq(a, b) && LexLeq(b, a) ==> a == b
  {
    forall a, b ensures LexLeq(a, b) || LexLeq(b, a)
      ensures LexLeq(a, b) && LexLeq(b, a) ==> a == b
    {
      LexTotal(a, b);
    }
    forall a, b, c | LexLeq(a, b) && LexLeq(b, c) ensures LexLeq(a, c) {
      LexTransitive(a, b, c);
    }
  }

  /** The order told by index: `a` is a prefix of `b`, or is below it at the first difference. */
  ghost predicate Precedes(a: seq<int>, b: seq<int>) {
    a <= b || exists k :: 0 <= k < |a| && k < |b| && DiffersBelow(a, b, k)
  }

  ghost predicate DiffersBelow(a: seq<int>, b: seq<int>, k: nat)
    requires k < |a| && k < |b|
  {
    a[..k] == b[..k] && a[k] < b[k]
  }

  /** So it is `str` and `bytes` comparison: ascending, shorter first. */
  lemma {:induction false} LexByIndex(a: seq<int>, b: seq<int>)
    ensures LexLeq(a, b) <==> Precedes(a, b)
  {
    if a != [] && b != [] {
      var x, y := a[1..], b[1..];
      assert a == [a[0]] + x && b == [b[0]] + y;
      if a[0] < b[0] {
        assert DiffersBelow(a, b, 0);
      } else if a[0] == b[0] {
        LexByIndex(x, y);
        if k :| 0 <= k < |x| && k < |y| && DiffersBelow(x, y, k) {
          assert DiffersBelow(a, b, k + 1);
        }
        if k :| 0 <= k < |a| && k < |b| && DiffersBelow(a, b, k) {
          assert x[..k-1] == a[..k][1..] && y[..k-1] == b[..k][1..];
          assert DiffersBelow(x, y, k - 1);
        }
      } else {
        assert forall k :: 0 <= k < |a| && k < |b| && k > 0 ==> a[..k][0] != b[..k][0];
      }
    }
  }

  // ----- Stability

  /** The members of `s` that pass, in order. */
  function Select<T>(s: seq<T>, test: T -> bool): seq<T> {
    if s == [] then [] else (if test(s[0]) then [s[0]] else []) + Select(s[1..], test)
  }

  lemma {:induction false} InsertStable<T(!new)>(leq: (T, T) -> bool, x: T, s: seq<T>, test: T -> bool)
    requires forall y, z :: test(y) && test(z) ==> leq(y, z)
    ensures Select(Insert(leq, x, s), test) == Select([x] + s, test)
  {
    if s != [] && !leq(x, s[0]) {
      InsertStable(leq, x, s[1..], test);
      assert ([x] + s[1..])[1..] == s[1..] && ([x] + s)[1..] == s;
    }
  }

  /** Values that tie keep the order they came in. */
  lemma {:induction false} SortStable<T(!new)>(leq: (T, T) -> bool, s: seq<T>, test: T -> bool)
    requires forall y, z :: test(y) && test(z) ==> leq(y, z)
    ensures Select(Sort(leq, s), test) == Select(s, test)
  {
    if s != [] {
      SortStable(leq, s[1..], test);
      var rest := Sort(leq, s[1..]);
      InsertStable(leq, s[0], rest, test);
      assert ([s[0]] + rest)[1..] == rest;
    }
  }
}
