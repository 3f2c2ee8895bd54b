/** Bands of owed rows, and the pixels the kernel writes for them. */
module Bands {
  import opened Wrappers

  /** A run of adjacent rows. */
  datatype Span = Span(start: nat, count: nat)

  ghost predicate Ascending(rows: seq<nat>) {
    forall i, j | 0 <= i < j < |rows| :: rows[i] < rows[j]
  }

  function RowsFrom(start: nat, count: nat): (rows: seq<nat>)
    ensures |rows| == count && forall i | 0 <= i < count :: rows[i] == start + i
  {
    seq(count, i requires 0 <= i < count => start + i)
  }

  /** The rows of some spans, in order. */
  function Rows(spans: seq<Span>): seq<nat> {
    if spans == [] then []
    else Rows(spans[..|spans| - 1]) + RowsFrom(spans[|spans| - 1].start, spans[|spans| - 1].count)
  }

  /** Spans are not empty, and no two neighbours touch: none could be longer. */
  ghost predicate Maximal(spans: seq<Span>) {
    && (forall i | 0 <= i < |spans| :: spans[i].count > 0)
    && (forall i | 1 <= i < |spans| :: spans[i - 1].start + spans[i - 1].count < spans[i].start)
  }

  lemma RowsNext(spans: seq<Span>, span: Span)
    ensures Rows(spans + [span]) == Rows(spans) + RowsFrom(span.start, span.count)
  {
    assert (spans + [span])[..|spans|] == spans;
  }

  /** Where the run that starts at `from` ends. */
  method RunEnd(rows: seq<nat>, from: nat) returns (index: nat)
    requires Ascending(rows) && from < |rows|
    ensures from <= index < |rows|
    ensures rows[from..index + 1] == RowsFrom(rows[from], index + 1 - from)
    ensures index + 1 < |rows| ==> rows[index + 1] > rows[index] + 1
  {
    index := from;
    var end := rows[from];
    while index + 1 < |rows| && rows[index + 1] == end + 1
      invariant from <= index < |rows| && end == rows[index] == rows[from] + (index - from)
      invariant forall i | from <= i <= index :: rows[i] == rows[from] + (i - from)
    {
      index := index + 1;
      end := rows[index];
    }
  }

  lemma AppendSpan(rows: seq<nat>, spans: seq<Span>, start: nat, index: nat, span: Span)
    requires start <= index < |rows| && Rows(spans) == rows[..start]
    requires rows[start..index + 1] == RowsFrom(rows[start], index + 1 - start)
    requires span.start == rows[start] && span.count == index + 1 - start
    ensures Rows(spans + [span]) == rows[..index + 1] && span.start + span.count == rows[index] + 1
  {
    RowsNext(spans, span);
    assert rows[..index + 1] == rows[..start] + rows[start..index + 1];
    assert rows[index] == rows[start..index + 1][index - start];
  }

  /** Before the next span, the spans so far are maximal and do not reach `next`. */
  ghost predicate Apart(spans: seq<Span>, next: nat) {
    Maximal(spans) && (|spans| > 0 ==> spans[|spans| - 1].start + spans[|spans| - 1].count < next)
  }

  lemma ApartNext(spans: seq<Span>, span: Span, next: nat)
    requires Apart(spans, span.start) && span.count > 0
    ensures Maximal(spans + [span]) && (span.start + span.count < next ==> Apart(spans + [span], next))
  {
  }

  /** The spans of a list of owed rows: all of them, and maximal. */
  method Spans(rows: seq<nat>) returns (spans: seq<Span>)
    requires Ascending(rows)
    ensures Rows(spans) == rows && Maximal(spans)
  {
    spans := [];
    var index := 0;
    while index < |rows|
      invariant 0 <= index <= |rows| && Rows(spans) == rows[..index] && Maximal(spans)
      invariant index < |rows| ==> Apart(spans, rows[index])
    {
      var first := index;
      var start := rows[first];
      index := RunEnd(rows, first);
      ghost var tail := rows[first..index + 1];
      assert rows[index] == tail[index - first] == start + (index - first);
      var span := Span(start, rows[index] - start + 1);
      AppendSpan(rows, spans, first, index, span);
      ApartNext(spans, span, if index + 1 < |rows| then rows[index + 1] else rows[index] + 2);
      spans := spans + [span];
      index := index + 1;
    }
    assert rows[..|rows|] == rows;
  }

  lemma {:induction false} RowsInOrder(spans: seq<Span>)
    requires Maximal(spans)
    ensures Ascending(Rows(spans))
    ensures |spans| > 0 ==>
            && |Rows(spans)| > 0
            && Rows(spans)[|Rows(spans)| - 1] == spans[|spans| - 1].start + spans[|spans| - 1].count - 1
    decreases |spans|
  {
    if spans != [] {
      RowsInOrder(spans[..|spans| - 1]);
    }
  }

  lemma {:induction false} LastSpanIsDetermined(a: seq<Span>, b: seq<Span>)
    requires Maximal(a) && Maximal(b) && |a| > 0 && |b| > 0 && Rows(a) == Rows(b)
    ensures a[|a| - 1].count <= b[|b| - 1].count
  {
    RowsInOrder(a);
    RowsInOrder(b);
    RowsInOrder(b[..|b| - 1]);
    var p, q, rows := a[|a| - 1], b[|b| - 1], Rows(a);
    var n := |rows|;
    assert Rows(a) == Rows(a[..|a| - 1]) + RowsFrom(p.start, p.count);
    assert Rows(b[..|b| - 1]) == rows[..n - q.count];
    assert |b| > 1 ==> rows[n - 1 - q.count] < q.start - 1;
    assert |b| == 1 ==> n == q.count;
  }

  /** There is only one way to cut rows into maximal runs, so every banding loop cuts them alike. */
  lemma {:induction false} SpansAreUnique(a: seq<Span>, b: seq<Span>)
    requires Maximal(a) && Maximal(b) && Rows(a) == Rows(b)
    ensures a == b
    decreases |a|
  {
    if a == [] || b == [] {
      RowsInOrder(a);
      RowsInOrder(b);
    } else {
      LastSpanIsDetermined(a, b);
      LastSpanIsDetermined(b, a);
      RowsInOrder(a);
      RowsInOrder(b);
      var p, q := a[|a| - 1], b[|b| - 1];
      assert p == q;
      EqualFronts(Rows(a[..|a| - 1]), Rows(b[..|b| - 1]), RowsFrom(p.start, p.count));
      SpansAreUnique(a[..|a| - 1], b[..|b| - 1]);
      assert a == a[..|a| - 1] + [p] && b == b[..|b| - 1] + [q];
    }
  }

  lemma EqualFronts(s: seq<nat>, t: seq<nat>, tail: seq<nat>)
    requires s + tail == t + tail
    ensures s == t
  {
    assert |s| == |t|;
    assert s == (s + tail)[..|s|] && t == (t + tail)[..|t|];
  }

  // Pixels

  /** A surface `width` by `height` with a grid of `cols` by `rows` cells on it, never larger than it. */
  datatype Geometry = Geometry(width: nat, height: nat, cols: nat, rows: nat, cellW: nat, cellH: nat)

  predicate Real(g: Geometry) {
    && g.cols > 0 && g.rows > 0 && g.cellW > 0 && g.cellH > 0
    && g.cols * g.cellW <= g.width && g.rows * g.cellH <= g.height
  }

  /** How many thread rows one paint dispatches; the band that reaches the last row goes down to the box's edge. */
  function DispatchHeight(g: Geometry, band: Span): nat {
    if band.start + band.count == g.rows && g.height > band.start * g.cellH then g.height - band.start * g.cellH
    else band.count * g.cellH
  }

  /** What a thread writes: the background outside the grid, or the pixel of a cell. */
  datatype Write = Background | CellPixel(row: nat, col: nat, dx: nat, dy: nat)

  /** The kernel, for the thread at column `x` and row `y` of the band: where it writes, and what. */
  function Kernel(g: Geometry, band: Span, x: nat, y: nat): Option<(nat, Write)>
    requires Real(g)
  {
    var at := band.start * g.cellH + y;
    if x >= g.width || at >= g.height then None
    else if x >= g.cols * g.cellW || at >= g.rows * g.cellH then Some((at, Background))
    else if y >= band.count * g.cellH then None
    else Some((at, CellPixel(band.start + y / g.cellH, x / g.cellW, x % g.cellW, y % g.cellH)))
  }

  /** Pixel `(x, y)` of the surface is written by painting `band`. */
  ghost predicate Written(g: Geometry, band: Span, x: nat, y: nat)
    requires Real(g)
  {
    exists t: nat :: t < DispatchHeight(g, band) && Writes(g, band, x, t, y)
  }

  predicate Writes(g: Geometry, band: Span, x: nat, t: nat, y: nat)
    requires Real(g)
  {
    Kernel(g, band, x, t).Some? && Kernel(g, band, x, t).value.0 == y
  }

  /** What a full repaint puts there. */
  function PixelAt(g: Geometry, x: nat, y: nat): Write
    requires Real(g)
  {
    if x >= g.cols * g.cellW || y >= g.rows * g.cellH then Background
    else CellPixel(y / g.cellH, x / g.cellW, x % g.cellW, y % g.cellH)
  }

  /** The row a line of pixels belongs to; the strip below the grid goes with the last. */
  function RowOf(g: Geometry, y: nat): nat
    requires Real(g)
  {
    if y < g.rows * g.cellH then y / g.cellH else g.rows - 1
  }

  lemma Products(a: nat, b: nat, c: nat)
    requires a <= b
    ensures a * c <= b * c && (b - a) * c == b * c - a * c
  {
  }

  lemma Quotients(start: nat, t: nat, c: nat)
    requires c > 0
    ensures (start * c + t) / c == start + t / c && (start * c + t) % c == t % c
  {
    var q, r := t / c, t % c;
    assert t == q * c + r;
    assert start * c + t == (start + q) * c + r;
    Division(start * c + t, start + q, r, c);
  }

  lemma Division(n: nat, q: nat, r: nat, c: nat)
    requires c > 0 && r < c && n == q * c + r
    ensures n / c == q && n % c == r
  {
    var p := n / c;
    if p < q {
      Products(p + 1, q, c);
    } else if q < p {
      Products(q + 1, p, c);
    }
  }

  lemma RowBounds(row: nat, y: nat, c: nat)
    requires c > 0
    ensures row <= y / c <==> row * c <= y
  {
    var q := y / c;
    assert q * c <= y < (q + 1) * c;
    if row <= q {
      Products(row, q, c);
    } else {
      Products(q + 1, row, c);
    }
  }

  /** What belongs at pixel `(x, y)`: the background outside the grid, and inside it the place in the cell that is
      there, counted from the cell's own corner. */
  predicate Belongs(g: Geometry, x: nat, y: nat, write: Write) {
    match write
    case Background => x >= g.cols * g.cellW || y >= g.rows * g.cellH
    case CellPixel(row, col, dx, dy) =>
      && row < g.rows && col < g.cols && dx < g.cellW && dy < g.cellH
      && x == col * g.cellW + dx && y == row * g.cellH + dy
  }

  lemma Within(col: nat, cols: nat, dx: nat, c: nat)
    requires c > 0 && dx < c
    ensures col < cols ==> col * c + dx < cols * c
  {
    if col < cols {
      Products(col + 1, cols, c);
    }
  }

  lemma QuotientWithin(x: nat, cols: nat, c: nat)
    requires c > 0 && x < cols * c
    ensures x / c < cols && x == x / c * c + x % c
  {
    RowBounds(cols, x, c);
  }

  /** A full repaint puts there what belongs there, and only one thing does. */
  lemma PixelExactly(g: Geometry, x: nat, y: nat, write: Write)
    requires Real(g)
    ensures Belongs(g, x, y, write) <==> write == PixelAt(g, x, y)
  {
    if x < g.cols * g.cellW && y < g.rows * g.cellH {
      QuotientWithin(x, g.cols, g.cellW);
      QuotientWithin(y, g.rows, g.cellH);
    }
    if write.CellPixel? && Belongs(g, x, y, write) {
      Within(write.col, g.cols, write.dx, g.cellW);
      Within(write.row, g.rows, write.dy, g.cellH);
      Division(x, write.col, write.dx, g.cellW);
      Division(y, write.row, write.dy, g.cellH);
    }
  }

  /** A line of pixels belongs to a row if it crosses its cells, and to the last one if it is below the grid. */
  lemma RowOfExactly(g: Geometry, y: nat, row: nat)
    requires Real(g) && row < g.rows
    ensures RowOf(g, y) == row <==>
            row * g.cellH <= y && (y < row * g.cellH + g.cellH || row == g.rows - 1)
  {
    RowBounds(row, y, g.cellH);
    RowBounds(row + 1, y, g.cellH);
    RowBounds(g.rows, y, g.cellH);
    assert (row + 1) * g.cellH == row * g.cellH + g.cellH;
    Products(row, g.rows, g.cellH);
    Products(g.rows - 1, g.rows, g.cellH);
  }

  predicate InSpan(span: Span, row: nat) {
    span.start <= row < span.start + span.count
  }

  predicate OnGrid(g: Geometry, band: Span) {
    band.count > 0 && band.start + band.count <= g.rows
  }

  /** The thread that would write line `y`, if any, is the one `y - start * cellH` down the band. */
  lemma ThreadFor(g: Geometry, band: Span, x: nat, y: nat)
    requires Real(g) && OnGrid(g, band) && x < g.width && y < g.height
    ensures var top := band.start * g.cellH;
            Written(g, band, x, y) <==> top <= y && y - top < DispatchHeight(g, band) && Writes(g, band, x, y - top, y)
  {
    var top := band.start * g.cellH;
    if Written(g, band, x, y) {
      var t: nat :| t < DispatchHeight(g, band) && Writes(g, band, x, t, y);
      assert y == top + t;
    }
  }

  /** The band as a range of lines: its rows, and with the last row everything below. */
  lemma LinesOf(g: Geometry, band: Span, y: nat)
    requires Real(g) && OnGrid(g, band) && y < g.height
    ensures var top, next := band.start * g.cellH, band.start + band.count;
            && top + band.count * g.cellH == next * g.cellH <= g.rows * g.cellH
            && (top <= y && y - top < DispatchHeight(g, band) <==> InSpan(band, RowOf(g, y)))
  {
    var next := band.start + band.count;
    Products(band.start, next, g.cellH);
    Products(next, g.rows, g.cellH);
    Products(band.start, g.rows - 1, g.cellH);
    Products(g.rows - 1, g.rows, g.cellH);
    RowBounds(band.start, y, g.cellH);
    RowBounds(next, y, g.cellH);
    RowBounds(g.rows, y, g.cellH);
  }

  /** Painting a band writes exactly the pixels of its rows, across the whole width of the box, and each
      with what a full repaint would put there. */
  lemma BandWritesItsRows(g: Geometry, band: Span, x: nat, y: nat)
    requires Real(g) && OnGrid(g, band) && x < g.width && y < g.height
    ensures Written(g, band, x, y) <==> InSpan(band, RowOf(g, y))
    ensures forall t: nat | t < DispatchHeight(g, band) && Writes(g, band, x, t, y) ::
            Kernel(g, band, x, t) == Some((y, PixelAt(g, x, y)))
  {
    ThreadFor(g, band, x, y);
    LinesOf(g, band, y);
    var top := band.start * g.cellH;
    if top <= y && y - top < DispatchHeight(g, band) {
      ThreadWrites(g, band, x, y, y - top);
    }
  }

  lemma ThreadWrites(g: Geometry, band: Span, x: nat, y: nat, t: nat)
    requires Real(g) && OnGrid(g, band) && x < g.width && y < g.height
    requires y == band.start * g.cellH + t && t < DispatchHeight(g, band)
    ensures Kernel(g, band, x, t) == Some((y, PixelAt(g, x, y)))
  {
    LinesOf(g, band, y);
    Quotients(band.start, t, g.cellH);
  }

  lemma {:induction false} InRows(spans: seq<Span>, row: nat)
    ensures row in Rows(spans) <==> exists i :: 0 <= i < |spans| && InSpan(spans[i], row)
    decreases |spans|
  {
    if spans != [] {
      var init, last := spans[..|spans| - 1], spans[|spans| - 1];
      InRows(init, row);
      assert row in RowsFrom(last.start, last.count) <==> InSpan(last, row) by {
        if InSpan(last, row) {
          assert RowsFrom(last.start, last.count)[row - last.start] == row;
        }
      }
      assert row in Rows(spans) <==> row in Rows(init) || row in RowsFrom(last.start, last.count);
      assert forall i | 0 <= i < |init| :: init[i] == spans[i];
    }
  }

  /** A pixel is written by some band of the owed rows. */
  ghost predicate WrittenBySome(g: Geometry, spans: seq<Span>, x: nat, y: nat)
    requires Real(g)
  {
    exists i :: 0 <= i < |spans| && Written(g, spans[i], x, y)
  }

  /** The bands of some owed rows write exactly the pixels of those rows, and the strip below the grid
      exactly when the last row is owed. */
  lemma OwedRowsAreWritten(g: Geometry, owed: seq<nat>, spans: seq<Span>, x: nat, y: nat)
    requires Real(g) && x < g.width && y < g.height
    requires Rows(spans) == owed && Maximal(spans) && forall row | row in owed :: row < g.rows
    ensures WrittenBySome(g, spans, x, y) <==> RowOf(g, y) in owed
  {
    InRows(spans, RowOf(g, y));
    forall i | 0 <= i < |spans| ensures Written(g, spans[i], x, y) <==> InSpan(spans[i], RowOf(g, y)) {
      SpanOnGrid(g, spans, i);
      BandWritesItsRows(g, spans[i], x, y);
    }
  }

  lemma SpanOnGrid(g: Geometry, spans: seq<Span>, i: nat)
    requires Maximal(spans) && (forall row | row in Rows(spans) :: row < g.rows) && i < |spans|
    ensures OnGrid(g, spans[i])
  {
    var last := spans[i].start + spans[i].count - 1;
    InRows(spans, last);
    assert InSpan(spans[i], last);
  }

  /** So a fresh target, which is owed every row, is covered to its last pixel. */
  lemma FreshTargetIsCovered(g: Geometry, spans: seq<Span>, x: nat, y: nat)
    requires Real(g) && x < g.width && y < g.height
    requires Rows(spans) == RowsFrom(0, g.rows) && Maximal(spans)
    ensures WrittenBySome(g, spans, x, y)
  {
    var row := RowOf(g, y);
    RowBounds(g.rows, y, g.cellH);
    assert RowsFrom(0, g.rows)[row] == row;
    OwedRowsAreWritten(g, RowsFrom(0, g.rows), spans, x, y);
  }
}
