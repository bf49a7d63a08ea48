/** The byte stream `tree_digest` feeds to SHA-256. */
module TreeDigest {
  import opened Ordering
  import opened Utf8

  /** A file: its relative path and the hexadecimal digest of its contents, as bytes. */
  datatype Record = Record(path: Bytes, digest: Bytes)

  const NUL: Byte := 0

  predicate RecordLeq(a: Record, b: Record) {
    if a.path == b.path then LexLeq(a.digest, b.digest) else LexLeq(a.path, b.path)
  }

  predicate NulFree(r: Record) { NUL !in r.path && NUL !in r.digest }

  function Frame(r: Record): Bytes { r.path + [NUL] + r.digest + [NUL] }

  function Frames(records: seq<Record>): Bytes {
    if records == [] then [] else Frame(records[0]) + Frames(records[1..])
  }

  /** Everything passed to `digest.update`, in order. */
  function Stream(records: seq<Record>): Bytes { Frames(Sort(RecordLeq, records)) }

  method FeedDigest(records: seq<Record>) returns (fed: Bytes)
    ensures fed == Stream(records)
  {
    var sorted := Sort(RecordLeq, records);
    hide Sort, RecordLeq, Frames;
    fed := [];
    assert sorted[..0] == [];
    NoFrames();
    for i := 0 to |sorted|
      invariant fed == Frames(sorted[..i])
    {
      assert sorted[..i+1] == sorted[..i] + [sorted[i]];
      FramesSnoc(sorted[..i], sorted[i]);
      fed := fed + sorted[i].path;
      fed := fed + [NUL];
      fed := fed + sorted[i].digest;
      fed := fed + [NUL];
    }
    assert sorted[..|sorted|] == sorted;
  }

  lemma NoFrames()
    ensures Frames([]) == []
  {
  }

  lemma {:induction false} FramesSnoc(records: seq<Record>, r: Record)
    ensures Frames(records + [r]) == Frames(records) + r.path + [NUL] + r.digest + [NUL]
  {
    if records == [] {
      assert [] + [r] == [r] && [r][1..] == [];
    } else {
      assert (records + [r])[1..] == records[1..] + [r] && (records + [r])[0] == records[0];
      FramesSnoc(records[1..], r);
    }
  }

  lemma RecordOrder()
    ensures TotalPreorder(RecordLeq)
    ensures forall a, b :: RecordLeq(a, b) && RecordLeq(b, a) ==> a == b
  {
    forall a, b
      ensures RecordLeq(a, b) || RecordLeq(b, a)
      ensures RecordLeq(a, b) && RecordLeq(b, a) ==> a == b
    {
      LexTotal(a.path, b.path);
      LexTotal(a.digest, b.digest);
    }
    forall a, b, c | RecordLeq(a, b) && RecordLeq(b, c) ensures RecordLeq(a, c) {
      RecordTransitive(a, b, c);
    }
  }

  lemma RecordTransitive(a: Record, b: Record, c: Record)
    requires RecordLeq(a, b) && RecordLeq(b, c)
    ensures RecordLeq(a, c)
  {
    hide LexLeq;
    if a.path == b.path == c.path {
      LexTransitive(a.digest, b.digest, c.digest);
    } else if a.path != b.path && b.path != c.path {
      LexTransitive(a.path, b.path, c.path);
      LexTotal(a.path, b.path);
    }
  }

  /** The records are framed by ascending path. */
  lemma StreamAscends(records: seq<Record>)
    ensures exists sorted ::
              multiset(sorted) == multiset(records) && Stream(records) == Frames(sorted) && Ascends(sorted)
  {
    var sorted := Sort(RecordLeq, records);
    RecordOrder();
    SortSorted(RecordLeq, records);
    hide Sort, Precedes, Frames;
    forall i, j | 0 <= i < j < |sorted| ensures InOrder(sorted[i], sorted[j]) {
      assert RecordLeq(sorted[i], sorted[j]);
      LexByIndex(sorted[i].path, sorted[j].path);
      LexByIndex(sorted[i].digest, sorted[j].digest);
      LexTotal(sorted[i].path, sorted[i].path);
    }
    assert Ascends(sorted);
  }

  ghost predicate InOrder(a: Record, b: Record) {
    Precedes(a.path, b.path) && (a.path == b.path ==> Precedes(a.digest, b.digest))
  }

  ghost predicate Ascends(records: seq<Record>) {
    forall i, j :: 0 <= i < j < |records| ==> InOrder(records[i], records[j])
  }

  /** Paths b and a, digests 2 and 1: `a`, NUL, `1`, NUL, `b`, NUL, `2`, NUL. */
  lemma StreamExample()
    ensures Stream([Record([0x62], [0x32]), Record([0x61], [0x31])])
         == [0x61, NUL, 0x31, NUL, 0x62, NUL, 0x32, NUL]
  {
    var b, a := Record([0x62], [0x32]), Record([0x61], [0x31]);
    assert RecordLeq(a, b) && !RecordLeq(b, a);
    hide RecordLeq, LexLeq;
    SortedPair(RecordLeq, b, a);
    TwoFrames(a, b);
  }

  lemma TwoFrames(a: Record, b: Record)
    ensures Frames([a, b]) == a.path + [NUL] + a.digest + [NUL] + b.path + [NUL] + b.digest + [NUL]
  {
    NoFrames();
    FramesSnoc([], a);
    FramesSnoc([a], b);
    assert [] + [a] == [a] && [a] + [b] == [a, b];
  }

  lemma {:induction false} SplitAtNul(p: Bytes, x: Bytes, q: Bytes, y: Bytes)
    requires NUL !in p && NUL !in q && p + [NUL] + x == q + [NUL] + y
    ensures p == q && x == y
  {
    var l, r := p + [NUL] + x, q + [NUL] + y;
    assert forall i :: 0 <= i < |p| ==> l[i] == p[i] && l[i] != NUL;
    assert forall i :: 0 <= i < |q| ==> r[i] == q[i] && r[i] != NUL;
    assert l[|p|] == NUL && r[|q|] == NUL;
    assert p == l[..|p|] && q == r[..|q|];
    assert x == l[|p|+1..] && y == r[|q|+1..];
  }

  lemma {:induction false} FramesInjective(a: seq<Record>, b: seq<Record>)
    requires forall r :: r in a || r in b ==> NulFree(r)
    requires Frames(a) == Frames(b)
    ensures a == b
  {
    if a != [] && b != [] {
      var s, t := a[0], b[0];
      assert s in a && t in b && NulFree(s) && NulFree(t);
      var x, y := Frames(a[1..]), Frames(b[1..]);
      assert Frames(a) == s.path + [NUL] + (s.digest + [NUL] + x);
      assert Frames(b) == t.path + [NUL] + (t.digest + [NUL] + y);
      SplitAtNul(s.path, s.digest + [NUL] + x, t.path, t.digest + [NUL] + y);
      SplitAtNul(s.digest, x, t.digest, y);
      FramesInjective(a[1..], b[1..]);
      assert a == [s] + a[1..] && b == [t] + b[1..];
    }
  }

  /** Two walks of NUL-free records feed the same bytes exactly when they saw the same records: the
      order of enumeration never matters, and any other difference does. */
  lemma StreamDecides(a: seq<Record>, b: seq<Record>)
    requires forall r :: r in a || r in b ==> NulFree(r)
    ensures Stream(a) == Stream(b) <==> multiset(a) == multiset(b)
  {
    RecordOrder();
    SortCanonical(RecordLeq, a, b);
    SameMembers(Sort(RecordLeq, a), a);
    SameMembers(Sort(RecordLeq, b), b);
    if Stream(a) == Stream(b) {
      FramesInjective(Sort(RecordLeq, a), Sort(RecordLeq, b));
    }
  }
}
