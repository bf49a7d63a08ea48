/** Splitting a trace on idle gaps (`segment`), and what the pieces conserve. */
module Segmentation {
  import opened Wrappers
  import opened Numbers
  import opened Ordering
  import opened Utf8
  import opened Sweep

  predicate RowLeq(a: Row, b: Row) {
    if a.start != b.start then a.start < b.start
    else if a.end != b.end then a.end < b.end
    else LexLeq(a.queue, b.queue)
  }

  ghost predicate StartSorted(rows: seq<Row>) {
    forall i, j :: 0 <= i < j < |rows| ==> rows[i].start <= rows[j].start
  }

  /** `load` ends by sorting its rows. */
  lemma LoadedRowsSorted(rows: seq<Row>)
    ensures StartSorted(Sort(RowLeq, rows))
  {
    LexIsTotalOrder();
    SortSorted(RowLeq, rows);
  }

  /** Tuple order, told on the fields. */
  ghost predicate RowBefore(a: Row, b: Row) {
    || a.start < b.start
    || (a.start == b.start && a.end < b.end)
    || (a.start == b.start && a.end == b.end && Precedes(a.queue, b.queue))
  }

  ghost predicate RowsAscend(rows: seq<Row>) {
    forall i, j :: 0 <= i < j < |rows| ==> RowBefore(rows[i], rows[j])
  }

  lemma LoadedRowsAscend(rows: seq<Row>)
    ensures RowsAscend(Sort(RowLeq, rows))
  {
    var sorted := Sort(RowLeq, rows);
    LexIsTotalOrder();
    SortSorted(RowLeq, rows);
    hide Sort, Precedes;
    forall i, j | 0 <= i < j < |sorted| ensures RowBefore(sorted[i], sorted[j]) {
      assert RowLeq(sorted[i], sorted[j]);
      LexByIndex(sorted[i].queue, sorted[j].queue);
    }
  }

  /** `last_end` after these rows: `last_end or end` reads a zero as no value. */
  function LastEnd(rows: seq<Row>): int
    requires rows != []
  {
    var end := rows[|rows|-1].end;
    if |rows| == 1 then end
    else
      var last := LastEnd(rows[..|rows|-1]);
      if last == 0 then end else if last < end then end else last
  }

  function Flatten(segments: seq<seq<Row>>): seq<Row> {
    if segments == [] then [] else Flatten(segments[..|segments|-1]) + segments[|segments|-1]
  }

  /** How many rows the first `j` segments hold. */
  function Offset(segments: seq<seq<Row>>, j: nat): nat
    requires j <= |segments|
  {
    |Flatten(segments[..j])|
  }

  ghost predicate CutBefore(segments: seq<seq<Row>>, i: nat) {
    exists j :: 0 < j < |segments| && Offset(segments, j) == i
  }

  /** Non-empty pieces that make up the rows, cut exactly before the rows that start more than the gap
      after the running end. */
  ghost predicate IsSegmentation(rows: seq<Row>, gap: int, segments: seq<seq<Row>>) {
    && Flatten(segments) == rows
    && (forall j :: 0 <= j < |segments| ==> segments[j] != [])
    && (forall i :: 0 < i < |rows| ==> (CutBefore(segments, i) <==> rows[i].start - LastEnd(rows[..i]) > gap))
  }

  /** `segment`. */
  method Segment(rows: seq<Row>, gap: int) returns (segments: seq<seq<Row>>)
    ensures IsSegmentation(rows, gap, segments)
  {
    hide IsSegmentation, LastEnd;
    EmptySegmentation(gap);
    segments := [];
    var current: seq<Row> := [];
    var lastEnd: Option<int> := None;
    for i := 0 to |rows|
      invariant i == 0 <==> current == []
      invariant i == 0 ==> segments == [] && lastEnd == None
      invariant i > 0 ==> IsSegmentation(rows[..i], gap, segments + [current]) && lastEnd == Some(LastEnd(rows[..i]))
    {
      var row := rows[i];
      assert rows[..i+1] == rows[..i] + [row];
      LastEndSnoc(rows[..i], row);
      ghost var pieces;
      if i == 0 {
        assert rows[..1] == [row];
        FirstRow(row, gap);
        pieces := [[row]];
      } else if row.start - LastEnd(rows[..i]) > gap {
        CutHere(rows[..i], row, gap, segments + [current]);
        pieces := segments + [current] + [[row]];
      } else {
        ExtendLast(rows[..i], row, gap, segments, current);
        pieces := segments + [current + [row]];
      }
      if lastEnd.Some? && row.start - lastEnd.value > gap {
        segments := segments + [current];
        current := [];
      }
      current := current + [row];
      var base := if lastEnd.Some? && lastEnd.value != 0 then lastEnd.value else row.end;
      lastEnd := Some(if base < row.end then row.end else base);
      assert [] + [row] == [row] && segments + [current] == pieces;
    }
    assert rows[..|rows|] == rows;
    if current != [] {
      segments := segments + [current];
    }
  }

  lemma EmptySegmentation(gap: int)
    ensures IsSegmentation([], gap, [])
  {
  }

  lemma LastEndSnoc(rows: seq<Row>, row: Row)
    ensures LastEnd(rows + [row]) ==
              if rows == [] || LastEnd(rows) == 0 then row.end
              else if LastEnd(rows) < row.end then row.end else LastEnd(rows)
  {
    assert (rows + [row])[..|rows|] == rows;
  }

  lemma FlattenSnoc(segments: seq<seq<Row>>, last: seq<Row>)
    ensures Flatten(segments + [last]) == Flatten(segments) + last
    ensures forall j :: 0 <= j <= |segments| ==> Offset(segments + [last], j) == Offset(segments, j)
  {
    var all := segments + [last];
    assert all[..|segments|] == segments;
    assert forall j :: 0 <= j <= |segments| ==> all[..j] == segments[..j];
  }

  lemma FirstRow(row: Row, gap: int)
    ensures IsSegmentation([row], gap, [[row]])
  {
    FlattenSnoc([], [row]);
    assert [] + [[row]] == [[row]] && Flatten([]) == [];
  }

  lemma {:induction false} OffsetsGrow(segments: seq<seq<Row>>, j: nat)
    requires j <= |segments| && forall k :: 0 <= k < |segments| ==> segments[k] != []
    ensures j == |segments| ==> Offset(segments, j) == |Flatten(segments)|
    ensures j < |segments| ==> Offset(segments, j) < |Flatten(segments)|
    decreases |segments| - j
  {
    if j == |segments| {
      assert segments[..j] == segments;
    } else {
      OffsetsGrow(segments, j + 1);
      assert segments[..j+1][..j] == segments[..j];
    }
  }

  /** The rows of a prefix keep their cuts. */
  lemma PrefixCuts(rows: seq<Row>, row: Row, gap: int, before: seq<seq<Row>>, after: seq<seq<Row>>)
    requires IsSegmentation(rows, gap, before) && Flatten(after) == rows + [row]
    requires forall j :: 0 <= j < |after| ==> after[j] != []
    requires forall i :: 0 < i < |rows| ==> (CutBefore(before, i) <==> CutBefore(after, i))
    requires rows != [] ==> (CutBefore(after, |rows|) <==> row.start - LastEnd(rows) > gap)
    ensures IsSegmentation(rows + [row], gap, after)
  {
    hide LastEnd, CutBefore, Flatten;
    var all := rows + [row];
    forall i | 0 < i < |all| ensures CutBefore(after, i) <==> all[i].start - LastEnd(all[..i]) > gap {
      assert all[..i] == rows[..i];
      if i == |rows| {
        assert rows[..i] == rows;
      }
    }
  }

  lemma CutHere(rows: seq<Row>, row: Row, gap: int, segments: seq<seq<Row>>)
    requires rows != [] && segments != [] && IsSegmentation(rows, gap, segments) && row.start - LastEnd(rows) > gap
    ensures IsSegmentation(rows + [row], gap, segments + [[row]])
  {
    var after := segments + [[row]];
    FlattenSnoc(segments, [row]);
    OffsetsGrow(segments, |segments|);
    assert Offset(after, |segments|) == |rows|;
    assert CutBefore(after, |rows|);
    forall i | 0 < i < |rows| ensures CutBefore(segments, i) <==> CutBefore(after, i) {
      if CutBefore(segments, i) {
        var j :| 0 < j < |segments| && Offset(segments, j) == i;
        assert Offset(after, j) == i;
      }
    }
    PrefixCuts(rows, row, gap, segments, after);
  }

  lemma ExtendLast(rows: seq<Row>, row: Row, gap: int, segments: seq<seq<Row>>, current: seq<Row>)
    requires rows != [] && IsSegmentation(rows, gap, segments + [current]) && row.start - LastEnd(rows) <= gap
    ensures IsSegmentation(rows + [row], gap, segments + [current + [row]])
  {
    var before, after := segments + [current], segments + [current + [row]];
    FlattenSnoc(segments, current);
    FlattenSnoc(segments, current + [row]);
    assert Flatten(after) == rows + [row];
    forall i | 0 < i <= |rows| ensures CutBefore(before, i) <==> CutBefore(after, i) {
      if j :| 0 < j < |before| && Offset(before, j) == i {
        assert Offset(after, j) == i;
      }
      if j :| 0 < j < |after| && Offset(after, j) == i {
        assert Offset(before, j) == i;
      }
    }
    assert !CutBefore(before, |rows|) by {
      if j :| 0 < j < |before| && Offset(before, j) == |rows| {
        OffsetsGrow(before, j);
      }
    }
    PrefixCuts(rows, row, gap, before, after);
  }

  // ----- The running end and the latest end

  function Latest(rows: seq<Row>): int
    requires rows != []
  {
    var end := rows[|rows|-1].end;
    if |rows| == 1 then end else Max(Latest(rows[..|rows|-1]), end)
  }

  /** While the latest end is zero, no row ends before zero: in particular when no timestamp is negative,
      or when all ends are. */
  ghost predicate ZeroNotForgotten(rows: seq<Row>) {
    forall i :: 0 < i < |rows| && Latest(rows[..i]) == 0 ==> rows[i].end >= 0
  }

  ghost predicate RunsWithLatest(rows: seq<Row>) {
    forall i :: 0 < i <= |rows| ==> LastEnd(rows[..i]) == Latest(rows[..i])
  }

  /** The running end is the latest end throughout exactly when no zero is forgotten. */
  lemma {:induction false} RunningEndExactly(rows: seq<Row>)
    ensures RunsWithLatest(rows) <==> ZeroNotForgotten(rows)
  {
    if rows != [] {
      var n := |rows| - 1;
      var front := rows[..n];
      RunningEndExactly(front);
      OneMoreRow(rows);
    }
  }

  lemma OneMoreRow(rows: seq<Row>)
    requires rows != []
    ensures var n := |rows| - 1;
            var front := rows[..n];
            && (ZeroNotForgotten(rows) <==>
                  ZeroNotForgotten(front) && (n > 0 && Latest(front) == 0 ==> rows[n].end >= 0))
            && (RunsWithLatest(rows) <==>
                  RunsWithLatest(front) && (n > 0 && Latest(front) == 0 ==> rows[n].end >= 0))
  {
    var n := |rows| - 1;
    var front := rows[..n];
    assert forall i :: 0 < i <= n ==> front[..i] == rows[..i];
    assert front[..n] == front && forall i :: 0 <= i < n ==> front[i] == rows[i];
    hide Latest, LastEnd;
    OneMoreEnd(rows);
  }

  lemma OneMoreEnd(rows: seq<Row>)
    requires rows != []
    ensures var n := |rows| - 1;
            RunsWithLatest(rows) <==>
              RunsWithLatest(rows[..n]) && (n > 0 && Latest(rows[..n]) == 0 ==> rows[n].end >= 0)
  {
    var n := |rows| - 1;
    LastEndOfFront(rows);
    hide Latest, LastEnd;
    assert forall i :: 0 < i <= n ==> rows[..n][..i] == rows[..i];
    assert rows[..n+1] == rows;
  }

  lemma LastEndOfFront(rows: seq<Row>)
    requires rows != []
    ensures var n := |rows| - 1;
            n > 0 && LastEnd(rows[..n]) == Latest(rows[..n]) ==>
              (LastEnd(rows) == Latest(rows) <==> (Latest(rows[..n]) == 0 ==> rows[n].end >= 0))
    ensures |rows| == 1 ==> LastEnd(rows) == Latest(rows)
  {
  }

  lemma {:induction false} LatestBounds(rows: seq<Row>)
    requires rows != []
    ensures forall i :: 0 <= i < |rows| ==> rows[i].end <= Latest(rows)
    ensures exists i :: 0 <= i < |rows| && rows[i].end == Latest(rows)
  {
    var n := |rows| - 1;
    var front := rows[..n];
    if front != [] {
      LatestBounds(front);
      assert forall i :: 0 <= i < n ==> rows[i] == front[i];
      if Latest(rows) != rows[n].end {
        var i :| 0 <= i < n && front[i].end == Latest(front);
        assert rows[i].end == Latest(rows);
      }
    }
  }

  /** No cut falls inside an earlier row. */
  ghost predicate CutsClear(rows: seq<Row>, gap: int) {
    forall i :: 0 < i < |rows| && rows[i].start - LastEnd(rows[..i]) > gap ==> Latest(rows[..i]) <= rows[i].start
  }

  lemma NothingForgottenCutsClear(rows: seq<Row>, gap: int)
    requires gap >= 0 && ZeroNotForgotten(rows)
    ensures CutsClear(rows, gap)
  {
    RunningEndExactly(rows);
  }

  // ----- Cuts are where the trace is idle

  /** At a cut no row is running, for longer than the gap. */
  lemma IdleAtCut(rows: seq<Row>, gap: int, segments: seq<seq<Row>>, i: nat, t: int)
    requires IsSegmentation(rows, gap, segments) && StartSorted(rows) && ZeroNotForgotten(rows)
    requires 0 < i < |rows| && CutBefore(segments, i) && LastEnd(rows[..i]) <= t < rows[i].start
    ensures rows[i].start - LastEnd(rows[..i]) > gap
    ensures ActiveAt(rows, t) == {}
  {
    RunningEndExactly(rows);
    LatestBounds(rows[..i]);
    assert forall k :: 0 <= k < i ==> rows[k] == rows[..i][k];
  }

  /** Inside a piece no stretch that no row meets, not even one of no length, is longer than the gap. */
  lemma NoLongGapInside(rows: seq<Row>, gap: int, segments: seq<seq<Row>>, first: nat, last: nat, a: int, b: int)
    requires IsSegmentation(rows, gap, segments) && StartSorted(rows) && ZeroNotForgotten(rows) && Forward(rows)
    requires first < last <= |rows| && forall i :: first < i < last ==> !CutBefore(segments, i)
    requires first > 0 ==> CutBefore(segments, first)
    requires rows[first].start <= a < b && exists k :: first <= k < last && b <= rows[k].end
    requires forall k :: first <= k < last ==> rows[k].end <= a || b <= rows[k].start
    requires gap >= 0
    ensures b - a <= gap
  {
    hide LastEnd, Latest, Flatten, CutBefore, ZeroNotForgotten;
    var k :| first <= k < last && b <= rows[k].end;
    var i := FirstAfter(rows, first, k, b);
    RunningEndExactly(rows);
    LatestBounds(rows[..i]);
    var m :| 0 <= m < i && rows[..i][m].end == LastEnd(rows[..i]);
    assert rows[..i][first] == rows[first] && rows[..i][m] == rows[m];
    if first > 0 {
      LatestBounds(rows[..first]);
      assert forall x :: 0 <= x < first ==> rows[..first][x] == rows[x];
    }
    assert m >= first;
    assert !CutBefore(segments, i);
  }

  ghost predicate AllPositive(rows: seq<Row>) { forall i :: 0 <= i < |rows| ==> rows[i].start < rows[i].end }

  /** For kernels that take time, inside a piece no idle stretch of the union is longer than the gap. */
  lemma NoLongIdleInside(rows: seq<Row>, gap: int, segments: seq<seq<Row>>, first: nat, last: nat, a: int, b: int)
    requires IsSegmentation(rows, gap, segments) && StartSorted(rows) && ZeroNotForgotten(rows) && AllPositive(rows)
    requires first < last <= |rows| && forall i :: first < i < last ==> !CutBefore(segments, i)
    requires first > 0 ==> CutBefore(segments, first)
    requires rows[first].start <= a < b && exists k :: first <= k < last && b <= rows[k].end
    requires forall t :: a <= t < b ==> ActiveAt(rows, t) == {}
    requires gap >= 0
    ensures b - a <= gap
  {
    forall k | first <= k < last ensures rows[k].end <= a || b <= rows[k].start {
      var t := Max(a, rows[k].start);
      if rows[k].start <= t < rows[k].end {
        assert rows[k].queue in ActiveAt(rows, t);
      }
    }
    NoLongGapInside(rows, gap, segments, first, last, a, b);
  }

  /** A kernel of no length keeps a piece together across an idle stretch longer than the gap: here 16
      idle instants in one piece, at a gap of 10. */
  lemma InstantKernelBridges(queue: Text)
    ensures var rows := [Row(0, 1, queue), Row(8, 8, queue), Row(17, 18, queue)];
            && StartSorted(rows) && Forward(rows) && ZeroNotForgotten(rows) && IsSegmentation(rows, 10, [rows])
            && forall t :: 1 <= t < 17 ==> ActiveAt(rows, t) == {}
  {
    var first, second, third := Row(0, 1, queue), Row(8, 8, queue), Row(17, 18, queue);
    hide LastEnd, Latest, IsSegmentation, ZeroNotForgotten;
    BridgedZero(first, second, third);
    BridgedPiece(first, second, third);
  }

  lemma BridgedZero(first: Row, second: Row, third: Row)
    requires first.end == 1 && second.end == 8 && second.start == 8 && third.start == 17
    ensures ZeroNotForgotten([first, second, third])
  {
    var rows := [first, second, third];
    assert rows[..1] == [first] && rows[..2] == [first, second] && [first, second][..1] == [first];
    assert Latest([first]) == 1 && Latest([first, second]) == 8;
    hide Latest;
  }

  lemma BridgedPiece(first: Row, second: Row, third: Row)
    requires first.end == 1 && second.start == second.end == 8 && third.start == 17
    ensures IsSegmentation([first, second, third], 10, [[first, second, third]])
  {
    assert [first, second][..1] == [first];
    assert LastEnd([first]) == 1 && LastEnd([first, second]) == 8;
    hide LastEnd, IsSegmentation;
    TwoRows(first, second, 10);
    SameStretch([first, second], third, 10);
    assert [first, second] + [third] == [first, second, third];
  }

  lemma SameStretch(rows: seq<Row>, row: Row, gap: int)
    requires rows != [] && IsSegmentation(rows, gap, [rows]) && row.start - LastEnd(rows) <= gap
    ensures IsSegmentation(rows + [row], gap, [rows + [row]])
  {
    hide LastEnd, IsSegmentation;
    assert [] + [rows] == [rows] && [] + [rows + [row]] == [rows + [row]];
    ExtendLast(rows, row, gap, [], rows);
  }

  /** The first row of the piece that starts at or after `b`. */
  lemma FirstAfter(rows: seq<Row>, first: nat, k: nat, b: int) returns (i: nat)
    requires first <= k < |rows| && rows[first].start < b <= rows[k].start
    ensures first < i <= k && b <= rows[i].start && forall m :: first <= m < i ==> rows[m].start < b
  {
    i := first;
    while rows[i].start < b
      invariant first <= i <= k && forall m :: first <= m < i ==> rows[m].start < b
      decreases k - i
    {
      i := i + 1;
    }
  }

  // ----- Conservation

  /** `busy` (k = 1) or `overlapped` (k = 2) summed over pieces. */
  function PieceTotals(segments: seq<seq<Row>>, k: nat): int {
    if segments == [] then 0
    else PieceTotals(segments[..|segments|-1], k) + Total(SortedEvents(segments[|segments|-1]), k)
  }

  lemma {:induction false} SeparateInstants(x: seq<Row>, y: seq<Row>, k: nat, lo: int, hi: int)
    requires k >= 1 && forall i, j :: 0 <= i < |x| && 0 <= j < |y| ==> x[i].end <= y[j].start
    ensures Instants(x + y, k, lo, hi) == Instants(x, k, lo, hi) + Instants(y, k, lo, hi)
    decreases hi - lo
  {
    if lo < hi {
      SeparateInstants(x, y, k, lo, hi - 1);
      ActiveConcat(x, y, hi - 1);
      assert ActiveAt(x, hi - 1) == {} || ActiveAt(y, hi - 1) == {} by {
        if ActiveAt(x, hi - 1) != {} {
          var i :| 0 <= i < |x| && x[i].start <= hi - 1 < x[i].end;
          assert forall j :: 0 <= j < |y| ==> hi - 1 < y[j].start;
        }
      }
    }
  }

  lemma ActiveConcat(x: seq<Row>, y: seq<Row>, t: int)
    ensures ActiveAt(x + y, t) == ActiveAt(x, t) + ActiveAt(y, t)
  {
    var all := x + y;
    assert forall i :: 0 <= i < |x| ==> all[i] == x[i];
    assert forall i :: 0 <= i < |y| ==> all[|x| + i] == y[i];
    forall q | q in ActiveAt(all, t) ensures q in ActiveAt(x, t) + ActiveAt(y, t) {
      var i :| 0 <= i < |all| && all[i].start <= t < all[i].end && all[i].queue == q;
      if i >= |x| {
        assert all[i] == y[i - |x|];
      }
    }
  }

  /** Every row of a piece starts after every earlier piece has ended. */
  lemma PiecesSeparate(rows: seq<Row>, gap: int, segments: seq<seq<Row>>, j: nat)
    requires IsSegmentation(rows, gap, segments) && StartSorted(rows) && CutsClear(rows, gap)
    requires 0 < j < |segments|
    ensures Flatten(segments[..j]) + segments[j] <= rows
    ensures forall a, b :: 0 <= a < |Flatten(segments[..j])| && 0 <= b < |segments[j]| ==>
              Flatten(segments[..j])[a].end <= segments[j][b].start
  {
    hide LastEnd, Flatten, Latest;
    var i, piece := Offset(segments, j), segments[j];
    PieceAt(segments, j);
    FirstPieceNonEmpty(segments, j);
    assert CutBefore(segments, i) && piece != [];
    LatestBounds(rows[..i]);
    hide IsSegmentation, CutBefore, CutsClear;
    forall a, b | 0 <= a < i && 0 <= b < |piece| ensures rows[..i][a].end <= piece[b].start {
      assert piece[b] == rows[i + b];
    }
  }

  /** A piece is the stretch of rows after the earlier pieces. */
  lemma PieceAt(segments: seq<seq<Row>>, j: nat)
    requires j < |segments|
    ensures var rows, i, end := Flatten(segments), Offset(segments, j), Offset(segments, j) + |segments[j]|;
            end <= |rows| && Flatten(segments[..j]) == rows[..i] && segments[j] == rows[i..end]
    ensures Flatten(segments[..j]) + segments[j] <= Flatten(segments)
  {
    FlattenPrefix(segments, j + 1);
    assert segments[..j+1] == segments[..j] + [segments[j]];
    FlattenSnoc(segments[..j], segments[j]);
    hide Flatten;
    Slices(Flatten(segments[..j]), segments[j], Flatten(segments));
  }

  lemma Slices(x: seq<Row>, y: seq<Row>, rows: seq<Row>)
    requires x + y <= rows
    ensures |x| + |y| <= |rows| && x == rows[..|x|] && y == rows[|x|..|x|+|y|]
  {
    assert rows[..|x|+|y|] == x + y;
  }

  lemma {:induction false} FlattenPrefix(segments: seq<seq<Row>>, j: nat)
    requires j <= |segments|
    ensures Flatten(segments[..j]) <= Flatten(segments)
    decreases |segments| - j
  {
    if j == |segments| {
      assert segments[..j] == segments;
    } else {
      FlattenPrefix(segments, j + 1);
      assert segments[..j+1][..j] == segments[..j];
    }
  }

  lemma FirstPieceNonEmpty(segments: seq<seq<Row>>, j: nat)
    requires 0 < j <= |segments| && forall k :: 0 <= k < |segments| ==> segments[k] != []
    ensures Offset(segments, j) > 0
  {
    assert segments[..j][..j-1] == segments[..j-1];
  }

  lemma {:induction false} PiecesConserve(rows: seq<Row>, gap: int, segments: seq<seq<Row>>, k: nat,
                                          lo: int, hi: int, j: nat)
    requires IsSegmentation(rows, gap, segments) && StartSorted(rows) && CutsClear(rows, gap)
    requires Forward(rows) && k >= 1 && lo <= hi && Spans(rows, lo, hi) && j <= |segments|
    ensures PieceTotals(segments[..j], k) == Instants(Flatten(segments[..j]), k, lo, hi)
  {
    hide IsSegmentation, StartSorted, CutsClear, Forward, Spans, Instants, Total, SortedEvents;
    if j == 0 {
      InstantsConstant([], k, lo, hi, 0);
    } else {
      var done, piece := segments[..j-1], segments[j-1];
      assert segments[..j][..j-1] == done;
      PiecesConserve(rows, gap, segments, k, lo, hi, j - 1);
      PieceExact(rows, gap, segments, k, lo, hi, j - 1);
      if j > 1 {
        PiecesSeparate(rows, gap, segments, j - 1);
        SeparateInstants(Flatten(done), piece, k, lo, hi);
      } else {
        assert done == [] && Flatten(done) + piece == piece;
        InstantsConstant([], k, lo, hi, 0);
      }
    }
  }

  lemma PieceExact(rows: seq<Row>, gap: int, segments: seq<seq<Row>>, k: nat, lo: int, hi: int, j: nat)
    requires IsSegmentation(rows, gap, segments) && j < |segments|
    requires Forward(rows) && k >= 1 && lo <= hi && Spans(rows, lo, hi)
    ensures Total(SortedEvents(segments[j]), k) == Instants(segments[j], k, lo, hi)
  {
    hide Total, Instants, Forward, Spans, EventsOf, LastEnd, CutBefore;
    var before, piece := Flatten(segments[..j]), segments[j];
    FlattenPrefix(segments, j + 1);
    assert segments[..j+1][..j] == segments[..j];
    StretchOfRows(rows, before, piece, lo, hi);
    EventsSorted(piece);
    SweepExact(piece, SortedEvents(piece), k, lo, hi);
  }

  lemma StretchOfRows(rows: seq<Row>, before: seq<Row>, piece: seq<Row>, lo: int, hi: int)
    requires before + piece <= rows && Forward(rows) && Spans(rows, lo, hi)
    ensures Forward(piece) && Spans(piece, lo, hi)
  {
    forall b | 0 <= b < |piece| ensures piece[b] == rows[|before| + b] {
      assert piece[b] == (before + piece)[|before| + b];
    }
  }

  /** Segmenting loses and invents nothing if no cut falls inside an earlier row, as when no zero is
      forgotten: the pieces' busy and overlapped times add up to those of the whole trace. */
  lemma SegmentsConserve(rows: seq<Row>, gap: int, segments: seq<seq<Row>>, lo: int, hi: int)
    requires IsSegmentation(rows, gap, segments) && StartSorted(rows) && CutsClear(rows, gap)
    requires Forward(rows) && lo <= hi && Spans(rows, lo, hi)
    ensures PieceTotals(segments, 1) == Total(SortedEvents(rows), 1)
    ensures PieceTotals(segments, 2) == Total(SortedEvents(rows), 2)
  {
    assert segments[..|segments|] == segments;
    PiecesConserve(rows, gap, segments, 1, lo, hi, |segments|);
    PiecesConserve(rows, gap, segments, 2, lo, hi, |segments|);
    CoverageExact(rows, lo, hi);
  }

  /** So for every loaded trace in which no zero is forgotten. */
  lemma LoadedTraceConserved(loaded: seq<Row>, gap: int, segments: seq<seq<Row>>, lo: int, hi: int)
    requires gap >= 0 && lo <= hi && Forward(loaded) && Spans(loaded, lo, hi)
    requires IsSegmentation(Sort(RowLeq, loaded), gap, segments) && ZeroNotForgotten(Sort(RowLeq, loaded))
    ensures PieceTotals(segments, 1) == Total(SortedEvents(Sort(RowLeq, loaded)), 1)
    ensures PieceTotals(segments, 2) == Total(SortedEvents(Sort(RowLeq, loaded)), 2)
  {
    var rows := Sort(RowLeq, loaded);
    LoadedRowsSorted(loaded);
    SameMembers(rows, loaded);
    assert forall i :: 0 <= i < |rows| ==> rows[i] in loaded;
    NothingForgottenCutsClear(rows, gap);
    SegmentsConserve(rows, gap, segments, lo, hi);
  }

  // ----- When conservation fails

  ghost predicate BothActive(x: seq<Row>, y: seq<Row>, t: int) { ActiveAt(x, t) != {} && ActiveAt(y, t) != {} }

  /** Busy time of two stretches counts an instant they share twice. */
  lemma {:induction false} SharedInstant(x: seq<Row>, y: seq<Row>, lo: int, hi: int, t: int)
    ensures Instants(x + y, 1, lo, hi) <= Instants(x, 1, lo, hi) + Instants(y, 1, lo, hi)
    ensures lo <= t < hi && BothActive(x, y, t) ==>
              Instants(x + y, 1, lo, hi) < Instants(x, 1, lo, hi) + Instants(y, 1, lo, hi)
    decreases hi - lo
  {
    if lo < hi {
      SharedInstant(x, y, lo, hi - 1, t);
      ActiveConcat(x, y, hi - 1);
      assert ActiveAt(x, hi - 1) == {} ==> |ActiveAt(x + y, hi - 1)| == |ActiveAt(y, hi - 1)|;
    }
  }

  lemma {:induction false} PiecesOvercount(rows: seq<Row>, gap: int, segments: seq<seq<Row>>, lo: int, hi: int,
                                           j: nat, t: int, m: nat)
    requires IsSegmentation(rows, gap, segments) && Forward(rows) && lo <= t < hi && Spans(rows, lo, hi)
    requires j < m <= |segments| ==> BothActive(Flatten(segments[..j]), segments[j], t)
    requires m <= |segments|
    ensures PieceTotals(segments[..m], 1) >= Instants(Flatten(segments[..m]), 1, lo, hi) + if j < m then 1 else 0
  {
    hide IsSegmentation, Forward, Spans, Instants, Total, SortedEvents, BothActive;
    if m == 0 {
      InstantsConstant([], 1, lo, hi, 0);
    } else {
      var done, piece := segments[..m-1], segments[m-1];
      assert segments[..m][..m-1] == done;
      PiecesOvercount(rows, gap, segments, lo, hi, j, t, m - 1);
      PieceExact(rows, gap, segments, 1, lo, hi, m - 1);
      SharedInstant(Flatten(done), piece, lo, hi, t);
    }
  }

  /** A cut inside an earlier row puts one instant into two pieces. */
  lemma CutShares(rows: seq<Row>, gap: int, segments: seq<seq<Row>>, i: nat) returns (j: nat)
    requires IsSegmentation(rows, gap, segments) && StartSorted(rows) && AllPositive(rows)
    requires 0 < i < |rows| && CutBefore(segments, i) && rows[i].start < Latest(rows[..i])
    ensures j < |segments| && BothActive(Flatten(segments[..j]), segments[j], rows[i].start)
  {
    j :| 0 < j < |segments| && Offset(segments, j) == i;
    hide Flatten, Latest, CutBefore;
    PieceAt(segments, j);
    var before, piece := Flatten(segments[..j]), segments[j];
    assert before == rows[..i] && piece[0] == rows[i];
    hide IsSegmentation, BothActive;
    assert forall k :: 0 <= k < i ==> before[k] == rows[k];
    StartsInside(before, piece);
  }

  lemma StartsInside(before: seq<Row>, piece: seq<Row>)
    requires before != [] && piece != [] && piece[0].start < piece[0].end && piece[0].start < Latest(before)
    requires forall k :: 0 <= k < |before| ==> before[k].start <= piece[0].start
    ensures BothActive(before, piece, piece[0].start)
  {
    LatestBounds(before);
    var k :| 0 <= k < |before| && before[k].end == Latest(before);
    assert before[k].queue in ActiveAt(before, piece[0].start);
    assert piece[0].queue in ActiveAt(piece, piece[0].start);
  }

  /** For kernels that take time, busy time is conserved exactly when no cut falls inside an earlier
      kernel. */
  lemma BusyConservedExactly(rows: seq<Row>, gap: int, segments: seq<seq<Row>>, lo: int, hi: int)
    requires IsSegmentation(rows, gap, segments) && StartSorted(rows) && AllPositive(rows)
    requires lo <= hi && Spans(rows, lo, hi)
    ensures PieceTotals(segments, 1) >= Total(SortedEvents(rows), 1)
    ensures PieceTotals(segments, 1) == Total(SortedEvents(rows), 1) <==> CutsClear(rows, gap)
  {
    hide Latest, LastEnd, Total, SortedEvents, Instants, BothActive;
    CoverageExact(rows, lo, hi);
    if CutsClear(rows, gap) {
      SegmentsConserve(rows, gap, segments, lo, hi);
    } else {
      var i :| 0 < i < |rows| && rows[i].start - LastEnd(rows[..i]) > gap && rows[i].start < Latest(rows[..i]);
      var j := CutShares(rows, gap, segments, i);
      assert segments[..|segments|] == segments;
      PiecesOvercount(rows, gap, segments, lo, hi, j, rows[i].start, |segments|);
    }
  }

  /** The third row is cut off while the first still runs, so busy time is counted twice. */
  lemma ZeroEndForgotten(queue: Text)
    ensures var rows := [Row(-10, 0, queue), Row(-9, -8, queue), Row(-5, -4, queue)];
            var segments := [rows[..2], rows[2..]];
            && !ZeroNotForgotten(rows) && IsSegmentation(rows, 1, segments)
            && PieceTotals(segments, 1) == 11 && Total(SortedEvents(rows), 1) == 10
  {
    var first, second, third := Row(-10, 0, queue), Row(-9, -8, queue), Row(-5, -4, queue);
    var rows := [first, second, third];
    assert rows[..1] == [first] && rows[..2] == [first, second] && rows[2..] == [third];
    assert Latest([first]) == 0;
    ForgottenCut(first, second, third);
    ForgottenTimes(first, second, third);
  }

  lemma ForgottenCut(first: Row, second: Row, third: Row)
    requires first.end == 0 && second.start <= 1 && second.end == -8 && third.start == -5
    ensures IsSegmentation([first, second, third], 1, [[first, second], [third]])
  {
    hide IsSegmentation, LastEnd;
    ForgottenEnd(first, second);
    TwoRows(first, second, 1);
    CutHere([first, second], third, 1, [[first, second]]);
    assert [first, second] + [third] == [first, second, third];
    assert [[first, second]] + [[third]] == [[first, second], [third]];
  }

  lemma ForgottenEnd(first: Row, second: Row)
    requires first.end == 0 && second.end == -8
    ensures LastEnd([first]) == 0 && LastEnd([first, second]) == -8
  {
    assert [first, second][..1] == [first];
  }

  lemma TwoRows(first: Row, second: Row, gap: int)
    requires second.start - LastEnd([first]) <= gap
    ensures IsSegmentation([first, second], gap, [[first, second]])
  {
    hide IsSegmentation, LastEnd;
    FirstRow(first, gap);
    SameStretch([first], second, gap);
    assert [first] + [second] == [first, second];
  }

  lemma ForgottenTimes(first: Row, second: Row, third: Row)
    requires first.queue == second.queue == third.queue && first.start == -10 && first.end == 0
    requires -10 <= second.start <= second.end <= 0 && third.start == -5 && third.end == -4
    ensures Total(SortedEvents([first, second, third]), 1) == 10
    ensures PieceTotals([[first, second], [third]], 1) == 11
  {
    hide Total, Instants, SortedEvents;
    OneQueue([first, second, third], first.queue, -10, 0);
    OneQueue([first, second], first.queue, -10, 0);
    OneQueue([third], third.queue, -5, -4);
    TwoPieces([first, second], [third], 1);
  }

  lemma TwoPieces(x: seq<Row>, y: seq<Row>, k: nat)
    ensures PieceTotals([x, y], k) == Total(SortedEvents(x), k) + Total(SortedEvents(y), k)
  {
    hide Total, SortedEvents;
    assert [x, y][..1] == [x] && [x][..0] == [];
    assert PieceTotals([x], k) == PieceTotals([], k) + Total(SortedEvents(x), k);
  }

  lemma OneQueue(rows: seq<Row>, queue: Text, lo: int, hi: int)
    requires rows != [] && rows[0].start == lo <= hi == rows[0].end
    requires forall i :: 0 <= i < |rows| ==> rows[i].queue == queue && lo <= rows[i].start <= rows[i].end <= hi
    ensures Total(SortedEvents(rows), 1) == Instants(rows, 1, lo, hi) == hi - lo
  {
    forall t | lo <= t < hi ensures |ActiveAt(rows, t)| == 1 {
      assert queue in ActiveAt(rows, t);
      assert ActiveAt(rows, t) == {queue};
    }
    InstantsConstant(rows, 1, lo, hi, 1);
    CoverageExact(rows, lo, hi);
  }
}
