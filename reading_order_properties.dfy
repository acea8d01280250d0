/**
 * What the reading order promises: the output is a permutation of the
 * input; the y-sorted stream is cut into rows exactly where neighbouring
 * centres differ by more than the tolerance; each row reads left to right;
 * rows come top to bottom; and these facts determine the output.
 */
module ResolverProperties {
  import opened Wrappers
  import opened StableSort
  import opened Resolver

  // ---------------------------------------------------------------------
  // Rows
  // ---------------------------------------------------------------------

  lemma FlattenLast<T>(rows: seq<seq<T>>)
    requires rows != [] && rows[|rows| - 1] != []
    ensures Flatten(rows) != [] && Flatten(rows)[|Flatten(rows)| - 1] == rows[|rows| - 1][|rows[|rows| - 1]| - 1]
  {
    assert rows == rows[..|rows| - 1] + [rows[|rows| - 1]];
    FlattenSnoc(rows[..|rows| - 1], rows[|rows| - 1]);
  }

  /** Starting a new row with `x` keeps a row partition. */
  lemma NewRowPartition(rs: seq<seq<Entry>>, s: seq<Entry>, x: Entry, yTolerance: int)
    requires IsRowPartition(rs, s, yTolerance)
    requires s != [] ==> !Close(s[|s| - 1], x, yTolerance)
    ensures IsRowPartition(rs + [[x]], s + [x], yTolerance)
  {
    var rows := rs + [[x]];
    FlattenSnoc(rs, [x]);
    assert forall k :: 0 <= k < |rs| ==> rows[k] == rs[k];
    forall k | 0 < k < |rows| ensures BreakBefore(rows, k, yTolerance) {
      if k < |rs| {
        assert BreakBefore(rs, k, yTolerance);
      } else {
        FlattenLast(rs);
      }
    }
  }

  /** Extending the last row with `x` keeps a row partition. */
  lemma ExtendRowPartition(rs: seq<seq<Entry>>, s: seq<Entry>, x: Entry, yTolerance: int)
    requires IsRowPartition(rs, s, yTolerance) && s != []
    requires Close(s[|s| - 1], x, yTolerance)
    ensures rs != [] && IsRowPartition(rs[..|rs| - 1] + [rs[|rs| - 1] + [x]], s + [x], yTolerance)
  {
    var m := |rs| - 1;
    var front, lastRow := rs[..m], rs[m];
    assert rs == front + [lastRow];
    FlattenSnoc(front, lastRow);
    FlattenLast(rs);
    var rows := front + [lastRow + [x]];
    FlattenSnoc(front, lastRow + [x]);
    assert forall k :: 0 <= k < m ==> rows[k] == rs[k];
    forall k, j | 0 <= k < |rows| && 0 < j < |rows[k]|
      ensures Close(rows[k][j - 1], rows[k][j], yTolerance)
    {
      if k == m && j < |lastRow| {
        assert rows[k][j] == lastRow[j] && rows[k][j - 1] == lastRow[j - 1];
      }
    }
    forall k | 0 < k < |rows| ensures BreakBefore(rows, k, yTolerance) {
      assert BreakBefore(rs, k, yTolerance);
    }
  }

  /** Dropping a last row that holds only the last element keeps a row partition of the rest. */
  lemma DropRowPartition(rs: seq<seq<Entry>>, s: seq<Entry>, x: Entry, yTolerance: int)
    requires IsRowPartition(rs + [[x]], s, yTolerance)
    ensures s != [] && s[|s| - 1] == x && IsRowPartition(rs, s[..|s| - 1], yTolerance)
    ensures rs != [] ==> |s| >= 2 && !Close(s[|s| - 2], x, yTolerance)
  {
    var rows := rs + [[x]];
    FlattenSnoc(rs, [x]);
    assert forall k :: 0 <= k < |rs| ==> rows[k] == rs[k];
    assert Flatten(rs) == s[..|s| - 1];
    forall k | 0 < k < |rs| ensures BreakBefore(rs, k, yTolerance) {
      assert BreakBefore(rows, k, yTolerance);
    }
    if rs != [] {
      assert BreakBefore(rows, |rs|, yTolerance);
      FlattenLast(rs);
    }
  }

  /** Dropping the last member of a last row with two or more keeps a row partition of the rest. */
  lemma ShrinkRowPartition(rs: seq<seq<Entry>>, last: seq<Entry>, s: seq<Entry>, yTolerance: int)
    requires IsRowPartition(rs + [last], s, yTolerance) && |last| >= 2
    ensures |s| >= 2 && s[|s| - 1] == last[|last| - 1]
    ensures IsRowPartition(rs + [last[..|last| - 1]], s[..|s| - 1], yTolerance)
    ensures Close(s[|s| - 2], s[|s| - 1], yTolerance)
  {
    var rows := rs + [last];
    var last' := last[..|last| - 1];
    var rows' := rs + [last'];
    assert last == last' + [last[|last| - 1]];
    FlattenSnoc(rs, last);
    FlattenSnoc(rs, last');
    assert forall k :: 0 <= k < |rs| ==> rows[k] == rs[k] && rows'[k] == rs[k];
    assert rows[|rs|] == last;
    forall k, j | 0 <= k < |rows'| && 0 < j < |rows'[k]|
      ensures Close(rows'[k][j - 1], rows'[k][j], yTolerance)
    {
      if k == |rs| {
        assert rows'[k][j] == last[j] && rows'[k][j - 1] == last[j - 1];
      }
    }
    forall k | 0 < k < |rows'| ensures BreakBefore(rows', k, yTolerance) {
      assert BreakBefore(rows, k, yTolerance);
    }
    assert Close(last[|last| - 2], last[|last| - 1], yTolerance);
    FlattenLast(rows');
  }

  /** `Rows` cuts its input into a row partition. */
  lemma {:induction false} RowsPartition(s: seq<Entry>, yTolerance: int)
    ensures IsRowPartition(Rows(s, yTolerance), s, yTolerance)
    decreases |s|
  {
    if s != [] {
      var init, x := s[..|s| - 1], s[|s| - 1];
      assert s == init + [x];
      RowsPartition(init, yTolerance);
      RowsSnoc(init, x, yTolerance);
      if init != [] {
        assert init[|init| - 1] == s[|s| - 2];
      }
      if |s| >= 2 && Close(s[|s| - 2], x, yTolerance) {
        ExtendRowPartition(Rows(init, yTolerance), init, x, yTolerance);
      } else {
        NewRowPartition(Rows(init, yTolerance), init, x, yTolerance);
      }
    }
  }

  /** Uniqueness, when the last row is a single element. */
  lemma UniqueNewRow(init: seq<seq<Entry>>, x: Entry, s: seq<Entry>, yTolerance: int)
    requires s != [] && s[|s| - 1] == x && Rows(s[..|s| - 1], yTolerance) == init
    requires init != [] ==> |s| >= 2 && !Close(s[|s| - 2], x, yTolerance)
    ensures init + [[x]] == Rows(s, yTolerance)
  {
    var s' := s[..|s| - 1];
    assert s == s' + [x];
    RowsSnoc(s', x, yTolerance);
    if s' != [] {
      assert s'[|s'| - 1] == s[|s| - 2];
    }
  }

  /** Uniqueness, when the last row has an element before its last. */
  lemma UniqueExtendRow(init: seq<seq<Entry>>, last: seq<Entry>, s: seq<Entry>, yTolerance: int)
    requires |last| >= 2 && |s| >= 2 && s[|s| - 1] == last[|last| - 1] && Close(s[|s| - 2], s[|s| - 1], yTolerance)
    requires Rows(s[..|s| - 1], yTolerance) == init + [last[..|last| - 1]]
    ensures init + [last] == Rows(s, yTolerance)
  {
    var last' := last[..|last| - 1];
    var rs := init + [last'];
    assert rs[..|rs| - 1] == init && rs[|rs| - 1] == last';
    assert last == last' + [s[|s| - 1]];
  }

  /**
   * The row partition is unique: any cut of `s` into non-empty rows, close
   * neighbours inside and a break between, is the one `Rows` computes.
   * So two neighbours of the y-sorted stream share a row exactly when
   * their centres differ by at most the tolerance.
   */
  lemma {:induction false} RowPartitionUnique(rows: seq<seq<Entry>>, s: seq<Entry>, yTolerance: int)
    requires IsRowPartition(rows, s, yTolerance)
    ensures rows == Rows(s, yTolerance)
    decreases |s|
  {
    if rows == [] {
      assert s == [];
    } else {
      var init, last := rows[..|rows| - 1], rows[|rows| - 1];
      assert rows == init + [last];
      assert last != [];
      if |last| == 1 {
        assert last == [last[0]];
        DropRowPartition(init, s, last[0], yTolerance);
        RowPartitionUnique(init, s[..|s| - 1], yTolerance);
        UniqueNewRow(init, last[0], s, yTolerance);
      } else {
        ShrinkRowPartition(init, last, s, yTolerance);
        RowPartitionUnique(init + [last[..|last| - 1]], s[..|s| - 1], yTolerance);
        UniqueExtendRow(init, last, s, yTolerance);
      }
    }
  }

  /** One row per element. */
  function Singletons(s: seq<Entry>): seq<seq<Entry>> {
    seq(|s|, i requires 0 <= i < |s| => [s[i]])
  }

  lemma SingletonsSnoc(init: seq<Entry>, x: Entry)
    ensures Singletons(init + [x]) == Singletons(init) + [[x]]
  {
    var s := init + [x];
    assert forall i :: 0 <= i < |init| ==> s[i] == init[i];
  }

  /** A row partition with close neighbours ruled out is a list of singletons. */
  lemma {:induction false} RowsAllSingletons(s: seq<Entry>, yTolerance: int)
    requires forall i :: 0 < i < |s| ==> !Close(s[i - 1], s[i], yTolerance)
    ensures Rows(s, yTolerance) == Singletons(s)
    decreases |s|
  {
    if s != [] {
      var init, x := s[..|s| - 1], s[|s| - 1];
      assert s == init + [x];
      assert forall i :: 0 <= i < |init| ==> init[i] == s[i];
      RowsAllSingletons(init, yTolerance);
      RowsSnoc(init, x, yTolerance);
      if init != [] {
        assert !Close(s[|s| - 2], s[|s| - 1], yTolerance);
        assert init[|init| - 1] == s[|s| - 2];
      }
      SingletonsSnoc(init, x);
    }
  }

  lemma {:induction false} FlattenSortedSingletons(s: seq<Entry>)
    ensures Flatten(SortRows(Singletons(s))) == s
    decreases |s|
  {
    if s != [] {
      var init, x := s[..|s| - 1], s[|s| - 1];
      assert s == init + [x];
      SingletonsSnoc(init, x);
      SortRowsSnoc(Singletons(init), [x]);
      assert SortBy([x], LeftX) == [x];
      FlattenSnoc(SortRows(Singletons(init)), [x]);
      FlattenSortedSingletons(init);
    }
  }

  /** Every member of every row is at most as low as `x`. */
  ghost predicate AllAbove(rs: seq<seq<Entry>>, x: Entry) {
    forall k, e :: 0 <= k < |rs| && e in rs[k] ==> e.yCenter <= x.yCenter
  }

  lemma NewRowInOrder(rs: seq<seq<Entry>>, x: Entry)
    requires RowsInOrder(rs) && AllAbove(rs, x)
    ensures RowsInOrder(rs + [[x]])
  {
    var rows := rs + [[x]];
    assert forall k :: 0 <= k < |rs| ==> rows[k] == rs[k];
  }

  lemma ExtendRowInOrder(rs: seq<seq<Entry>>, x: Entry)
    requires rs != [] && RowsInOrder(rs) && AllAbove(rs, x)
    ensures RowsInOrder(rs[..|rs| - 1] + [rs[|rs| - 1] + [x]])
  {
    var m := |rs| - 1;
    var rows := rs[..m] + [rs[m] + [x]];
    assert forall k :: 0 <= k < m ==> rows[k] == rs[k];
    forall k1, k2, e1: Entry, e2: Entry | 0 <= k1 < k2 < |rows| && e1 in rows[k1] && e2 in rows[k2]
      ensures e1.yCenter <= e2.yCenter
    {
      assert e1 in rs[k1];
      if e2 != x {
        assert e2 in rs[k2];
      }
    }
  }

  lemma SortedInit(s: seq<Entry>)
    requires s != [] && SortedBy(s, CenterY)
    ensures SortedBy(s[..|s| - 1], CenterY)
  {
    var init := s[..|s| - 1];
    forall i, j | 0 <= i < j < |init| ensures init[i].yCenter <= init[j].yCenter {
      assert init[i] == s[i] && init[j] == s[j];
    }
  }

  /** The rows of a y-sorted prefix lie above the next element. */
  lemma RowsAbove(s: seq<Entry>, yTolerance: int)
    requires s != [] && SortedBy(s, CenterY)
    ensures AllAbove(Rows(s[..|s| - 1], yTolerance), s[|s| - 1])
  {
    var init, x := s[..|s| - 1], s[|s| - 1];
    RowsPartition(init, yTolerance);
    var rs := Rows(init, yTolerance);
    forall k, e: Entry | 0 <= k < |rs| && e in rs[k] ensures e.yCenter <= x.yCenter {
      FlattenMember(rs, k, e);
      var i :| 0 <= i < |init| && init[i] == e;
      assert s[i] == e;
    }
  }

  /** Rows of a y-sorted sequence come top to bottom. */
  lemma {:induction false} RowsOrdered(s: seq<Entry>, yTolerance: int)
    requires SortedBy(s, CenterY)
    ensures RowsInOrder(Rows(s, yTolerance))
    decreases |s|
  {
    if s != [] {
      var init, x := s[..|s| - 1], s[|s| - 1];
      assert s == init + [x];
      SortedInit(s);
      RowsOrdered(init, yTolerance);
      RowsAbove(s, yTolerance);
      var rs := Rows(init, yTolerance);
      RowsSnoc(init, x, yTolerance);
      if init != [] && Close(init[|init| - 1], x, yTolerance) {
        ExtendRowInOrder(rs, x);
      } else {
        NewRowInOrder(rs, x);
      }
    }
  }

  /** Sorting inside rows keeps rows in top-to-bottom order. */
  lemma SortRowsInOrder(rows: seq<seq<Entry>>)
    requires RowsInOrder(rows)
    ensures RowsInOrder(SortRows(rows))
  {
    var out := SortRows(rows);
    forall k1, k2, e1: Entry, e2: Entry | 0 <= k1 < k2 < |out| && e1 in out[k1] && e2 in out[k2]
      ensures e1.yCenter <= e2.yCenter
    {
      SortByPermutation(rows[k1], LeftX);
      SortByPermutation(rows[k2], LeftX);
      assert e1 in multiset(SortBy(rows[k1], LeftX));
      assert e2 in multiset(SortBy(rows[k2], LeftX));
      assert e1 in rows[k1] && e2 in rows[k2];
    }
  }

  // ---------------------------------------------------------------------
  // Permutation
  // ---------------------------------------------------------------------

  lemma {:induction false} FlattenSortRowsPermutation(rows: seq<seq<Entry>>)
    ensures multiset(Flatten(SortRows(rows))) == multiset(Flatten(rows))
    decreases |rows|
  {
    if rows != [] {
      var init, last := rows[..|rows| - 1], rows[|rows| - 1];
      assert rows == init + [last];
      FlattenSortRowsPermutation(init);
      SortByPermutation(last, LeftX);
      SortRowsSnoc(init, last);
      FlattenSnoc(SortRows(init), SortBy(last, LeftX));
      FlattenSnoc(init, last);
    }
  }

  /** Rearranging entries rearranges the lines they carry. */
  lemma {:induction false} LinesPermutation(a: seq<Entry>, b: seq<Entry>)
    requires multiset(a) == multiset(b)
    ensures multiset(Lines(a)) == multiset(Lines(b))
    decreases |a|
  {
    if a == [] {
      assert |b| == |multiset(b)| == 0;
    } else {
      var init, x := a[..|a| - 1], a[|a| - 1];
      assert a == init + [x];
      assert x in multiset(b);
      var j :| 0 <= j < |b| && b[j] == x;
      var b' := b[..j] + b[j + 1..];
      assert b == b[..j] + [x] + b[j + 1..];
      assert multiset(b) == multiset(b[..j]) + multiset{x} + multiset(b[j + 1..]);
      assert multiset(b') == multiset(b[..j]) + multiset(b[j + 1..]);
      assert multiset(a) == multiset(init) + multiset{x};
      assert multiset(init) == multiset(a) - multiset{x};
      assert multiset(b') == multiset(b) - multiset{x};
      LinesPermutation(init, b');
      LinesAppend(init, [x]);
      LinesAppend(b[..j] + [x], b[j + 1..]);
      LinesAppend(b[..j], [x]);
      LinesAppend(b[..j], b[j + 1..]);
    }
  }

  lemma PositionsLines(textLines: seq<TextLine>)
    requires Positions(textLines).Some?
    ensures Lines(Positions(textLines).value) == textLines
  {
  }

  /**
   * Every input line appears in the output, as often as in the input, and
   * nothing else does.
   */
  lemma ReadingOrderPermutation(textLines: seq<TextLine>, yTolerance: int)
    requires ReadingOrder(textLines, yTolerance).Some?
    ensures multiset(ReadingOrder(textLines, yTolerance).value) == multiset(textLines)
  {
    if textLines != [] {
      var ps := Positions(textLines).value;
      var ys := SortBy(ps, CenterY);
      var rows := Rows(ys, yTolerance);
      RowsPartition(ys, yTolerance);
      SortByPermutation(ps, CenterY);
      FlattenSortRowsPermutation(rows);
      LinesPermutation(Flatten(SortRows(rows)), ps);
      PositionsLines(textLines);
    }
  }

  // ---------------------------------------------------------------------
  // The shape of the output, and that it determines the output
  // ---------------------------------------------------------------------

  /**
   * The output is built from a stable sort by centre, the chained row
   * partition of it and a stable left-to-right sort of each row; the rows
   * come top to bottom.
   */
  lemma ReadingOrderShape(textLines: seq<TextLine>, yTolerance: int)
    requires textLines != [] && Positions(textLines).Some?
    ensures
      var ps := Positions(textLines).value;
      var ys := SortBy(ps, CenterY);
      var rows := Rows(ys, yTolerance);
      var out := SortRows(rows);
      IsStableSortOf(ys, ps, CenterY) &&
      IsRowPartition(rows, ys, yTolerance) &&
      |out| == |rows| &&
      (forall k :: 0 <= k < |rows| ==> IsStableSortOf(out[k], rows[k], LeftX)) &&
      RowsInOrder(out) &&
      ReadingOrder(textLines, yTolerance) == Some(Lines(Flatten(out)))
  {
    var ps := Positions(textLines).value;
    var ys := SortBy(ps, CenterY);
    var rows := Rows(ys, yTolerance);
    StableSortCharacterization(ys, ps, CenterY);
    RowsPartition(ys, yTolerance);
    forall k | 0 <= k < |rows| ensures IsStableSortOf(SortRows(rows)[k], rows[k], LeftX) {
      StableSortCharacterization(SortRows(rows)[k], rows[k], LeftX);
    }
    SortBySorted(ps, CenterY);
    RowsOrdered(ys, yTolerance);
    SortRowsInOrder(rows);
  }

  lemma SortedRowsDetermined(rows: seq<seq<Entry>>, out: seq<seq<Entry>>)
    requires |out| == |rows| && forall k :: 0 <= k < |rows| ==> IsStableSortOf(out[k], rows[k], LeftX)
    ensures out == SortRows(rows)
  {
    forall k | 0 <= k < |rows| ensures out[k] == SortBy(rows[k], LeftX) {
      StableSortCharacterization(out[k], rows[k], LeftX);
    }
  }

  lemma ReadingOrderUnfold(textLines: seq<TextLine>, yTolerance: int)
    requires textLines != [] && Positions(textLines).Some?
    ensures ReadingOrder(textLines, yTolerance) ==
      Some(Lines(Flatten(SortRows(Rows(SortBy(Positions(textLines).value, CenterY), yTolerance)))))
  {
  }

  /**
   * Conversely, any stable sort by centre, any chained row partition of it
   * and any stable left-to-right sort of each row give the output.
   */
  lemma ReadingOrderDetermined(textLines: seq<TextLine>, yTolerance: int,
                               ys: seq<Entry>, rows: seq<seq<Entry>>, out: seq<seq<Entry>>)
    requires textLines != [] && Positions(textLines).Some?
    requires IsStableSortOf(ys, Positions(textLines).value, CenterY)
    requires IsRowPartition(rows, ys, yTolerance)
    requires |out| == |rows| && forall k :: 0 <= k < |rows| ==> IsStableSortOf(out[k], rows[k], LeftX)
    ensures ReadingOrder(textLines, yTolerance) == Some(Lines(Flatten(out)))
  {
    var ps := Positions(textLines).value;
    StableSortCharacterization(ys, ps, CenterY);
    RowPartitionUnique(rows, ys, yTolerance);
    SortedRowsDetermined(rows, out);
    ReadingOrderUnfold(textLines, yTolerance);
  }

  /**
   * With a negative tolerance, or a zero tolerance and no two lines at the
   * same centre, every row is a single line and the output is the stable
   * sort by centre.
   */
  lemma ReadingOrderSingletonRows(textLines: seq<TextLine>, yTolerance: int)
    requires textLines != [] && Positions(textLines).Some?
    requires yTolerance < 0 || (yTolerance == 0 && DistinctKeys(Positions(textLines).value, CenterY))
    ensures ReadingOrder(textLines, yTolerance) == Some(Lines(SortBy(Positions(textLines).value, CenterY)))
  {
    var ps := Positions(textLines).value;
    var ys := SortBy(ps, CenterY);
    if yTolerance == 0 && DistinctKeys(ps, CenterY) {
      SortByDistinct(ps, CenterY);
      assert forall i :: 0 < i < |ys| ==> ys[i - 1].yCenter != ys[i].yCenter;
    }
    assert forall i :: 0 < i < |ys| ==> !Close(ys[i - 1], ys[i], yTolerance);
    RowsAllSingletons(ys, yTolerance);
    FlattenSortedSingletons(ys);
  }

  // ---------------------------------------------------------------------
  // A worked example: two rows of two lines each
  // ---------------------------------------------------------------------

  lemma SeqOfFour<T>(s: seq<T>)
    requires |s| == 4
    ensures s == [s[0], s[1], s[2], s[3]]
  {
  }

  /** A line whose box is (x0, y0, x1, y1). */
  predicate BoxedAt(line: TextLine, x0: real, y0: real, x1: real, y1: real) {
    line.bbox == Some([x0, y0, x1, y1])
  }

  ghost predicate ExampleLines(a50: TextLine, a10: TextLine, b30: TextLine, b5: TextLine) {
    BoxedAt(a50, 50.0, 5.0, 60.0, 15.0) && BoxedAt(a10, 10.0, 7.0, 20.0, 17.0) &&
    BoxedAt(b30, 30.0, 35.0, 40.0, 45.0) && BoxedAt(b5, 5.0, 37.0, 15.0, 47.0)
  }

  lemma ExamplePositions(a50: TextLine, a10: TextLine, b30: TextLine, b5: TextLine)
    requires ExampleLines(a50, a10, b30, b5)
    ensures Positions([b5, a50, b30, a10]) ==
      Some([Entry(b5, 5.0, 42.0), Entry(a50, 50.0, 10.0), Entry(b30, 30.0, 40.0), Entry(a10, 10.0, 12.0)])
  {
    var input := [b5, a50, b30, a10];
    assert Positioned(b5) == Entry(b5, 5.0, 42.0);
    assert Positioned(a50) == Entry(a50, 50.0, 10.0);
    assert Positioned(b30) == Entry(b30, 30.0, 40.0);
    assert Positioned(a10) == Entry(a10, 10.0, 12.0);
    assert forall i :: 0 <= i < 4 ==> Position(input[i]).Some?;
    var ps := Positions(input).value;
    assert |ps| == 4 && ps[0] == Positioned(b5) && ps[1] == Positioned(a50) && ps[2] == Positioned(b30) && ps[3] == Positioned(a10);
    SeqOfFour(ps);
  }

  lemma ExampleSortTwo(A50: Entry, B5: Entry)
    requires A50.yCenter == 10.0 && B5.yCenter == 42.0
    ensures SortBy([B5, A50], CenterY) == [A50, B5]
  {
    var e: seq<Entry> := [];
    SortBySnoc(e, B5, CenterY);
    InsertAfter(e, B5, CenterY);
    assert e + [B5] == [B5];
    SortBySnoc([B5], A50, CenterY);
    assert [B5] + [A50] == [B5, A50];
    InsertBefore(e, B5, A50, CenterY);
    InsertAfter(e, A50, CenterY);
    assert e + [A50] + [B5] == [A50, B5];
  }

  lemma ExampleSortThree(A50: Entry, B30: Entry, B5: Entry)
    requires A50.yCenter == 10.0 && B30.yCenter == 40.0 && B5.yCenter == 42.0
    ensures SortBy([B5, A50, B30], CenterY) == [A50, B30, B5]
  {
    ExampleSortTwo(A50, B5);
    var s2, a := [B5, A50], [A50];
    SortBySnoc(s2, B30, CenterY);
    assert s2 + [B30] == [B5, A50, B30];
    assert a + [B5] == [A50, B5];
    InsertBefore(a, B5, B30, CenterY);
    InsertAfter(a, B30, CenterY);
    assert a + [B30] + [B5] == [A50, B30, B5];
  }

  lemma ExampleSortByCenter(A50: Entry, A10: Entry, B30: Entry, B5: Entry)
    requires A50.yCenter == 10.0 && A10.yCenter == 12.0 && B30.yCenter == 40.0 && B5.yCenter == 42.0
    ensures SortBy([B5, A50, B30, A10], CenterY) == [A50, A10, B30, B5]
  {
    ExampleSortThree(A50, B30, B5);
    var s3, ab, a := [B5, A50, B30], [A50, B30], [A50];
    SortBySnoc(s3, A10, CenterY);
    assert s3 + [A10] == [B5, A50, B30, A10];
    assert ab + [B5] == [A50, B30, B5];
    InsertBefore(ab, B5, A10, CenterY);
    assert a + [B30] == ab;
    InsertBefore(a, B30, A10, CenterY);
    InsertAfter(a, A10, CenterY);
    assert a + [A10] + [B30] + [B5] == [A50, A10, B30, B5];
  }

  lemma ExampleUpperRow(A50: Entry, A10: Entry)
    requires A50.yCenter == 10.0 && A10.yCenter == 12.0
    ensures Rows([A50, A10], 15) == [[A50, A10]]
  {
    RowsSnoc([], A50, 15);
    assert [] + [A50] == [A50];
    RowsSnoc([A50], A10, 15);
    assert [A50] + [A10] == [A50, A10];
  }

  lemma ExampleThirdLine(A50: Entry, A10: Entry, B30: Entry)
    requires A50.yCenter == 10.0 && A10.yCenter == 12.0 && B30.yCenter == 40.0
    ensures Rows([A50, A10, B30], 15) == [[A50, A10], [B30]]
  {
    ExampleUpperRow(A50, A10);
    RowsSnoc([A50, A10], B30, 15);
    assert [A50, A10] + [B30] == [A50, A10, B30];
  }

  lemma ExampleRows(A50: Entry, A10: Entry, B30: Entry, B5: Entry)
    requires A50.yCenter == 10.0 && A10.yCenter == 12.0 && B30.yCenter == 40.0 && B5.yCenter == 42.0
    ensures Rows([A50, A10, B30, B5], 15) == [[A50, A10], [B30, B5]]
  {
    ExampleThirdLine(A50, A10, B30);
    RowsSnoc([A50, A10, B30], B5, 15);
    assert [A50, A10, B30] + [B5] == [A50, A10, B30, B5];
    var rs := [[A50, A10], [B30]];
    assert rs[..1] == [[A50, A10]] && rs[1] + [B5] == [B30, B5];
  }

  lemma ExamplePairLeftToRight(a: Entry, b: Entry)
    requires b.xMin < a.xMin
    ensures SortBy([a, b], LeftX) == [b, a]
  {
    assert LeftX(b) < LeftX(a);
    assert Insert([a], b, LeftX) == Insert([], b, LeftX) + [a];
    assert SortBy([a], LeftX) == [a];
  }

  lemma FlattenTwo<T>(r1: seq<T>, r2: seq<T>)
    ensures Flatten([r1, r2]) == r1 + r2
  {
    FlattenSnoc([], r1);
    assert [] + [r1] == [r1];
    FlattenSnoc([r1], r2);
    assert [r1] + [r2] == [r1, r2];
  }

  lemma ExampleRowsLeftToRight(A50: Entry, A10: Entry, B30: Entry, B5: Entry)
    requires A50.xMin == 50.0 && A10.xMin == 10.0 && B30.xMin == 30.0 && B5.xMin == 5.0
    ensures Flatten(SortRows([[A50, A10], [B30, B5]])) == [A10, A50, B5, B30]
  {
    ExamplePairLeftToRight(A50, A10);
    ExamplePairLeftToRight(B30, B5);
    assert SortRows([[A50, A10], [B30, B5]]) == [[A10, A50], [B5, B30]];
    FlattenTwo([A10, A50], [B5, B30]);
  }

  /**
   * Two rows: centres 10 and 12 (left edges 50 and 10), then centres 40 and
   * 42 (left edges 30 and 5), tolerance 15, given in a scrambled order.
   * Each row reads left to right and the upper row comes first.
   */
  lemma TwoRowsExample(a50: TextLine, a10: TextLine, b30: TextLine, b5: TextLine)
    requires ExampleLines(a50, a10, b30, b5)
    ensures ReadingOrder([b5, a50, b30, a10], 15) == Some([a10, a50, b5, b30])
  {
    var A50, A10, B30, B5 := Entry(a50, 50.0, 10.0), Entry(a10, 10.0, 12.0), Entry(b30, 30.0, 40.0), Entry(b5, 5.0, 42.0);
    ExamplePositions(a50, a10, b30, b5);
    ExampleSortByCenter(A50, A10, B30, B5);
    ExampleRows(A50, A10, B30, B5);
    ExampleRowsLeftToRight(A50, A10, B30, B5);
    ReadingOrderUnfold([b5, a50, b30, a10], 15);
    var lines := Lines([A10, A50, B5, B30]);
    assert |lines| == 4 && lines[0] == a10 && lines[1] == a50 && lines[2] == b5 && lines[3] == b30;
    SeqOfFour(lines);
  }
}
