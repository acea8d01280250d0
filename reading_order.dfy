/**
 * The reading-order resolver `sort_text_lines_reading_order`: derive each
 * line's left edge and vertical centre, stable-sort by the centre, cut the
 * sorted stream into rows wherever two neighbouring centres differ by more
 * than the tolerance, stable-sort each row by the left edge, and concatenate
 * the rows.
 *
 * `ReadingOrder` is the specification; `SortTextLinesReadingOrder` is the
 * step-by-step procedure, proved to compute it.
 */
module Resolver {
  import opened Wrappers
  import opened StableSort

  /** A detected text line: recognised text, confidence, optional polygon (a list of points) and optional box. */
  datatype TextLine = TextLine(text: string, confidence: real, polygon: Option<seq<seq<real>>>, bbox: Option<seq<real>>)

  /** What a line's geometry yields: its left edge and its vertical centre. */
  datatype Pos = Pos(xMin: real, yCenter: real)

  /** An element of the positioned list: the line with its left edge and vertical centre. */
  datatype Entry = Entry(line: TextLine, xMin: real, yCenter: real)

  function LeftX(e: Entry): real { e.xMin }

  function CenterY(e: Entry): real { e.yCenter }

  function Abs(x: real): real { if x < 0.0 then -x else x }

  // ---------------------------------------------------------------------
  // Position extraction
  // ---------------------------------------------------------------------

  /** `line.bbox` is truthy: present and non-empty. */
  predicate HasBbox(line: TextLine) {
    line.bbox.Some? && line.bbox.value != []
  }

  /** Every point has at least an x and a y coordinate. */
  predicate PointsHaveXY(poly: seq<seq<real>>) {
    forall i :: 0 <= i < |poly| ==> |poly[i]| >= 2
  }

  /** The `c`-th coordinate of every point. */
  function Coords(poly: seq<seq<real>>, c: nat): seq<real>
    requires c < 2 && PointsHaveXY(poly)
  {
    seq(|poly|, i requires 0 <= i < |poly| => poly[i][c])
  }

  ghost predicate IsMin(s: seq<real>, m: real) {
    m in s && forall i :: 0 <= i < |s| ==> m <= s[i]
  }

  ghost predicate IsMax(s: seq<real>, m: real) {
    m in s && forall i :: 0 <= i < |s| ==> s[i] <= m
  }

  /** Python's `min` of a non-empty list. */
  function MinOf(s: seq<real>): (m: real)
    requires s != []
    ensures IsMin(s, m)
    decreases |s|
  {
    if |s| == 1 then s[0]
    else
      var m' := MinOf(s[1..]);
      assert forall i :: 1 <= i < |s| ==> s[i] == s[1..][i - 1];
      if s[0] <= m' then s[0] else m'
  }

  /** Python's `max` of a non-empty list. */
  function MaxOf(s: seq<real>): (m: real)
    requires s != []
    ensures IsMax(s, m)
    decreases |s|
  {
    if |s| == 1 then s[0]
    else
      var m' := MaxOf(s[1..]);
      assert forall i :: 1 <= i < |s| ==> s[i] == s[1..][i - 1];
      if s[0] >= m' then s[0] else m'
  }

  /** `p` is the polygon's leftmost x and the midpoint of its lowest and highest y. */
  ghost predicate IsPolygonPos(poly: seq<seq<real>>, p: Pos)
    requires PointsHaveXY(poly)
  {
    IsMin(Coords(poly, 0), p.xMin) &&
    exists lo, hi :: IsMin(Coords(poly, 1), lo) && IsMax(Coords(poly, 1), hi) && p.yCenter == (lo + hi) / 2.0
  }

  /**
   * The position of one line, or None where Python raises: a non-empty box
   * that does not have exactly four numbers cannot be unpacked, and without
   * a box the polygon must be present, non-empty, and give every point an
   * x and a y.
   */
  function Position(line: TextLine): (p: Option<Pos>)
    ensures p.None? <==>
      if HasBbox(line) then |line.bbox.value| != 4
      else line.polygon.None? || line.polygon.value == [] || !PointsHaveXY(line.polygon.value)
    ensures p.Some? && HasBbox(line) ==>
      var b := line.bbox.value; p.value.xMin == b[0] && p.value.yCenter == (b[1] + b[3]) / 2.0
    ensures p.Some? && !HasBbox(line) ==> IsPolygonPos(line.polygon.value, p.value)
  {
    if HasBbox(line) then
      var b := line.bbox.value;
      if |b| == 4 then Some(Pos(b[0], (b[1] + b[3]) / 2.0)) else None
    else if line.polygon.None? || line.polygon.value == [] || !PointsHaveXY(line.polygon.value) then None
    else
      var poly := line.polygon.value;
      var xs, ys := Coords(poly, 0), Coords(poly, 1);
      Some(Pos(MinOf(xs), (MinOf(ys) + MaxOf(ys)) / 2.0))
  }

  /** The line with the position its geometry yields. */
  function Positioned(line: TextLine): Entry
    requires Position(line).Some?
  {
    Entry(line, Position(line).value.xMin, Position(line).value.yCenter)
  }

  /** `lines_with_pos`, or None when some line's geometry makes Python raise. */
  function Positions(textLines: seq<TextLine>): Option<seq<Entry>> {
    if forall i :: 0 <= i < |textLines| ==> Position(textLines[i]).Some? then
      Some(seq(|textLines|, i requires 0 <= i < |textLines| && Position(textLines[i]).Some? => Positioned(textLines[i])))
    else None
  }

  /** The lines carried by a sequence of entries. */
  function Lines(es: seq<Entry>): seq<TextLine> {
    seq(|es|, i requires 0 <= i < |es| => es[i].line)
  }

  // ---------------------------------------------------------------------
  // Rows
  // ---------------------------------------------------------------------

  /** `b` joins the row whose most recently added member is `a`. */
  predicate Close(a: Entry, b: Entry, yTolerance: int) {
    Abs(b.yCenter - a.yCenter) <= yTolerance as real
  }

  function Flatten<T>(rows: seq<seq<T>>): seq<T>
    decreases |rows|
  {
    if rows == [] then [] else Flatten(rows[..|rows| - 1]) + rows[|rows| - 1]
  }

  /**
   * The greedy row grouping of a sequence, one element at a time: the next
   * element extends the last row when it is close to the element before it
   * (the row's most recently added member), and starts a new row otherwise.
   */
  function Rows(s: seq<Entry>, yTolerance: int): (rows: seq<seq<Entry>>)
    ensures rows == [] <==> s == []
    decreases |s|
  {
    if s == [] then []
    else
      var rs := Rows(s[..|s| - 1], yTolerance);
      var x := s[|s| - 1];
      if |s| >= 2 && Close(s[|s| - 2], x, yTolerance) then rs[..|rs| - 1] + [rs[|rs| - 1] + [x]]
      else rs + [[x]]
  }

  /**
   * `rows` cuts `s` into non-empty contiguous rows such that neighbours
   * inside a row are close and the last member of a row and the first of
   * the next are not.
   */
  ghost predicate IsRowPartition(rows: seq<seq<Entry>>, s: seq<Entry>, yTolerance: int) {
    Flatten(rows) == s &&
    (forall k :: 0 <= k < |rows| ==> rows[k] != []) &&
    (forall k, j :: 0 <= k < |rows| && 0 < j < |rows[k]| ==> Close(rows[k][j - 1], rows[k][j], yTolerance)) &&
    (forall k :: 0 < k < |rows| ==> BreakBefore(rows, k, yTolerance))
  }

  /** Row `k` starts because its first member is not close to the last member of row `k - 1`. */
  ghost predicate BreakBefore(rows: seq<seq<Entry>>, k: nat, yTolerance: int) {
    0 < k < |rows| && rows[k - 1] != [] && rows[k] != [] &&
    !Close(rows[k - 1][|rows[k - 1]| - 1], rows[k][0], yTolerance)
  }

  /** Every member of an earlier row is at most as low as every member of a later row. */
  ghost predicate RowsInOrder(rows: seq<seq<Entry>>) {
    forall k1, k2, e1, e2 :: 0 <= k1 < k2 < |rows| && e1 in rows[k1] && e2 in rows[k2] ==> e1.yCenter <= e2.yCenter
  }

  /** Every row sorted left to right (stably). */
  function SortRows(rows: seq<seq<Entry>>): seq<seq<Entry>> {
    seq(|rows|, k requires 0 <= k < |rows| => SortBy(rows[k], LeftX))
  }

  /**
   * The specification of `sort_text_lines_reading_order`: None where Python
   * raises while reading a line's geometry.
   */
  function ReadingOrder(textLines: seq<TextLine>, yTolerance: int): (r: Option<seq<TextLine>>)
    ensures textLines == [] ==> r == Some([])
    ensures r.None? <==> exists i :: 0 <= i < |textLines| && Position(textLines[i]).None?
  {
    if textLines == [] then Some([])
    else match Positions(textLines)
      case None => None
      case Some(ps) => Some(Lines(Flatten(SortRows(Rows(SortBy(ps, CenterY), yTolerance)))))
  }

  // ---------------------------------------------------------------------
  // The procedure
  // ---------------------------------------------------------------------

  /** The first loop: each line with its position, giving up at the first line whose geometry raises. */
  method PositionLines(textLines: seq<TextLine>) returns (r: Option<seq<Entry>>)
    ensures r == Positions(textLines)
  {
    var linesWithPos: seq<Entry> := [];
    for i := 0 to |textLines|
      invariant |linesWithPos| == i
      invariant forall k :: 0 <= k < i ==> Position(textLines[k]).Some? && linesWithPos[k] == Positioned(textLines[k])
    {
      var p := Position(textLines[i]);
      if p.None? {
        return None;
      }
      linesWithPos := linesWithPos + [Entry(textLines[i], p.value.xMin, p.value.yCenter)];
    }
    assert linesWithPos == Positions(textLines).value;
    return Some(linesWithPos);
  }

  /**
   * The second loop and the final flush: chained grouping of the sorted
   * entries into rows, each row emitted sorted left to right.
   */
  method GroupRows(linesWithPos: seq<Entry>, yTolerance: int) returns (groupedLines: seq<TextLine>)
    requires linesWithPos != []
    ensures groupedLines == Lines(Flatten(SortRows(Rows(linesWithPos, yTolerance))))
  {
    groupedLines := [];
    var currentGroup := [linesWithPos[0]];
    ghost var done: seq<seq<Entry>> := [];
    assert linesWithPos[..1] == [linesWithPos[0]];
    for i := 1 to |linesWithPos|
      invariant currentGroup != [] && currentGroup[|currentGroup| - 1] == linesWithPos[i - 1]
      invariant Rows(linesWithPos[..i], yTolerance) == done + [currentGroup]
      invariant groupedLines == Lines(Flatten(SortRows(done)))
    {
      var e := linesWithPos[i];
      var prev := currentGroup[|currentGroup| - 1];
      if Abs(e.yCenter - prev.yCenter) <= yTolerance as real {
        ExtendStep(linesWithPos, i, yTolerance, done, currentGroup);
        currentGroup := currentGroup + [e];
      } else {
        BreakStep(linesWithPos, i, yTolerance, done, currentGroup);
        EmitStep(done, currentGroup);
        done := done + [currentGroup];
        currentGroup := SortBy(currentGroup, LeftX);
        groupedLines := groupedLines + Lines(currentGroup);
        currentGroup := [e];
      }
    }
    assert linesWithPos[..|linesWithPos|] == linesWithPos;
    EmitStep(done, currentGroup);
    currentGroup := SortBy(currentGroup, LeftX);
    groupedLines := groupedLines + Lines(currentGroup);
  }

  method SortTextLinesReadingOrder(textLines: seq<TextLine>, yTolerance: int) returns (r: Option<seq<TextLine>>)
    ensures r == ReadingOrder(textLines, yTolerance)
  {
    if textLines == [] {
      return Some([]);
    }
    var positioned := PositionLines(textLines);
    if positioned.None? {
      return None;
    }
    var linesWithPos := SortBy(positioned.value, CenterY);
    SortByPermutation(positioned.value, CenterY);
    assert |linesWithPos| == |multiset(positioned.value)| == |positioned.value| == |textLines|;
    var groupedLines := GroupRows(linesWithPos, yTolerance);
    return Some(groupedLines);
  }

  // ---------------------------------------------------------------------
  // Helper lemmas
  // ---------------------------------------------------------------------

  lemma RowsStep(s: seq<Entry>, i: nat, yTolerance: int)
    requires 1 <= i < |s|
    ensures var rs := Rows(s[..i], yTolerance);
      rs != [] &&
      Rows(s[..i + 1], yTolerance) ==
        if Close(s[i - 1], s[i], yTolerance) then rs[..|rs| - 1] + [rs[|rs| - 1] + [s[i]]] else rs + [[s[i]]]
  {
    var t := s[..i + 1];
    assert t[..|t| - 1] == s[..i];
    assert t[|t| - 1] == s[i] && t[|t| - 2] == s[i - 1];
  }

  /** A close element extends the current row. */
  lemma ExtendStep(s: seq<Entry>, i: nat, yTolerance: int, done: seq<seq<Entry>>, g: seq<Entry>)
    requires 1 <= i < |s| && Rows(s[..i], yTolerance) == done + [g]
    requires Close(s[i - 1], s[i], yTolerance)
    ensures Rows(s[..i + 1], yTolerance) == done + [g + [s[i]]]
  {
    RowsStep(s, i, yTolerance);
    var rs := done + [g];
    assert rs[..|rs| - 1] == done && rs[|rs| - 1] == g;
  }

  /** An element that is not close starts a new row. */
  lemma BreakStep(s: seq<Entry>, i: nat, yTolerance: int, done: seq<seq<Entry>>, g: seq<Entry>)
    requires 1 <= i < |s| && Rows(s[..i], yTolerance) == done + [g]
    requires !Close(s[i - 1], s[i], yTolerance)
    ensures Rows(s[..i + 1], yTolerance) == (done + [g]) + [[s[i]]]
  {
    RowsStep(s, i, yTolerance);
  }

  lemma RowsSnoc(s: seq<Entry>, x: Entry, yTolerance: int)
    ensures var rs := Rows(s, yTolerance);
      Rows(s + [x], yTolerance) ==
        if s != [] && Close(s[|s| - 1], x, yTolerance) then rs[..|rs| - 1] + [rs[|rs| - 1] + [x]] else rs + [[x]]
  {
    assert (s + [x])[..|s|] == s;
  }

  lemma LinesAppend(a: seq<Entry>, b: seq<Entry>)
    ensures Lines(a + b) == Lines(a) + Lines(b)
  {
  }

  lemma FlattenSnoc<T>(rows: seq<seq<T>>, r: seq<T>)
    ensures Flatten(rows + [r]) == Flatten(rows) + r
  {
    assert (rows + [r])[..|rows|] == rows;
  }

  lemma SortRowsSnoc(rows: seq<seq<Entry>>, r: seq<Entry>)
    ensures SortRows(rows + [r]) == SortRows(rows) + [SortBy(r, LeftX)]
  {
  }

  /** Flushing one more row appends its left-to-right lines. */
  lemma EmitStep(done: seq<seq<Entry>>, g: seq<Entry>)
    ensures Lines(Flatten(SortRows(done + [g]))) == Lines(Flatten(SortRows(done))) + Lines(SortBy(g, LeftX))
  {
    SortRowsSnoc(done, g);
    FlattenSnoc(SortRows(done), SortBy(g, LeftX));
    LinesAppend(Flatten(SortRows(done)), SortBy(g, LeftX));
  }

  lemma {:induction false} FlattenMember<T>(rows: seq<seq<T>>, k: nat, e: T)
    requires k < |rows| && e in rows[k]
    ensures e in Flatten(rows)
    decreases |rows|
  {
    var init, last := rows[..|rows| - 1], rows[|rows| - 1];
    assert rows == init + [last];
    FlattenSnoc(init, last);
    if k < |init| {
      assert init[k] == rows[k];
      FlattenMember(init, k, e);
    }
  }
}
