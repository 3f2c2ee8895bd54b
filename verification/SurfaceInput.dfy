/** A surface's grid within its box, and the wheel that scrolls it. */
module SurfaceInput {
  import opened Wrappers
  import Bands

  // The grid of a box

  function AtLeastOne(n: int): (m: nat)
    ensures m >= 1
  {
    if n < 1 then 1 else n
  }

  const I64_MAX := 0x7fff_ffff_ffff_ffff

  /** A cast to 64 bits holds what is too large. */
  function Held(n: int): int {
    if n > I64_MAX then I64_MAX else n
  }

  /** How many cells fit a length: floored, and at least one. */
  function Cells(x: real, cell: nat): (n: nat)
    requires cell > 0
    ensures n >= 1
  {
    AtLeastOne(Held((x / cell as real).Floor))
  }

  /** The count as it is kept: the cast to 16 bits drops the rest. */
  function Kept(x: real, cell: nat): (n: nat)
    requires cell > 0
    ensures n <= Cells(x, cell) && n < 0x1_0000
  {
    Cells(x, cell) % 0x1_0000
  }

  /** Half away from zero, as the source rounds. */
  function Rounded(x: real): int {
    if x >= 0.0 then (x + 0.5).Floor else -((-x + 0.5).Floor)
  }

  /** To the nearest whole number, and away from zero from half way. */
  lemma RoundedExactly(x: real, n: int)
    ensures n == Rounded(x) <==>
            if x >= 0.0 then n as real - 0.5 <= x < n as real + 0.5 else n as real - 0.5 < x <= n as real + 0.5
  {
  }

  function Max(a: nat, b: nat): nat {
    if a < b then b else a
  }

  /** A length in whole device pixels, cast to 32 bits. */
  function DevicePixels(x: real): nat {
    AtLeastOne(Held(Rounded(x))) % 0x1_0000_0000
  }

  /** One side of a surface in device pixels: the whole length, and never less than its cells. */
  function Side(x: real, cell: nat): nat
    requires cell > 0
  {
    Max(DevicePixels(x), Kept(x, cell) * cell)
  }

  datatype Error = PainterEmpty

  /** The surface of a box whose sides, CSS pixels times scale, are `width` and `height`: all of the box in
      whole device pixels, and never less than the grid that fits it. No painter is made for an empty grid. */
  function Prepared(width: real, height: real, cellW: nat, cellH: nat): Result<Bands.Geometry, Error>
    requires cellW > 0 && cellH > 0
  {
    if Kept(width, cellW) == 0 || Kept(height, cellH) == 0 then Err(PainterEmpty)
    else
      Ok(Bands.Geometry(
        Side(width, cellW), Side(height, cellH), Kept(width, cellW), Kept(height, cellH), cellW, cellH))
  }

  lemma WholeCellsFit(n: nat, x: real, q: real, cell: nat)
    requires cell > 0 && q * cell as real == x && n as real <= q
    ensures n * cell <= Rounded(x)
  {
    Scaled(n as real, q, cell as real);
    assert (n * cell) as real <= x;
  }

  lemma NoMoreFit(n: nat, x: real, q: real, c: real)
    requires c > 0.0 && q * c == x && q < (n + 1) as real
    ensures (n + 1) as real * c > x
  {
    ScaledLess(q, (n + 1) as real, c);
  }

  /** One side of the box: the most cells that fit, as long as they are counted in 16 bits; the surface never
      less than the grid, and exactly the box where one cell fits and the pixels are counted in 32 bits. */
  lemma SideFits(x: real, cell: nat)
    requires cell > 0
    ensures Cells(x, cell) < 0x1_0000 ==>
            Kept(x, cell) == Cells(x, cell) && (Kept(x, cell) + 1) as real * cell as real > x
    ensures x >= cell as real && Rounded(x) < 0x1_0000_0000 ==> Side(x, cell) == Rounded(x)
    ensures Kept(x, cell) * cell <= Side(x, cell)
  {
    var c := cell as real;
    var q, n := x / c, Cells(x, cell);
    Quotient(x, c);
    if n < 0x1_0000 {
      NoMoreFit(n, x, q, c);
    }
    if x >= c {
      if q < 1.0 {
        ScaledLess(q, 1.0, c);
      }
      WholeCellsFit(n, x, q, cell);
      FewerCells(Kept(x, cell), n, cell);
    }
  }

  lemma FewerCells(m: nat, n: nat, cell: nat)
    requires m <= n
    ensures m * cell <= n * cell
  {
  }

  /** A surface is prepared exactly when neither count is a multiple of 65536, and then it can be painted in
      full. Where the box has room for a cell each way, the surface is exactly the box. */
  lemma PreparedSurfaceIsReal(width: real, height: real, cellW: nat, cellH: nat)
    requires cellW > 0 && cellH > 0
    ensures Prepared(width, height, cellW, cellH).Ok? <==>
            Cells(width, cellW) % 0x1_0000 != 0 && Cells(height, cellH) % 0x1_0000 != 0
    ensures Prepared(width, height, cellW, cellH).Ok? ==>
              var g := Prepared(width, height, cellW, cellH).value;
              && Bands.Real(g)
              && (width >= cellW as real && Rounded(width) < 0x1_0000_0000 ==> g.width == Rounded(width))
              && (height >= cellH as real && Rounded(height) < 0x1_0000_0000 ==> g.height == Rounded(height))
  {
    SideFits(width, cellW);
    SideFits(height, cellH);
  }

  /** What is kept of a length: as many cells as go into it but at least one, counted up to 2^63 - 1, and of that count
      the last 16 bits; its pixels are counted so too, to 32 bits. */
  lemma CountsExactly(x: real, cell: nat, n: int, pixels: int)
    requires cell > 0 && n as real <= x / cell as real < (n + 1) as real && pixels == Rounded(x)
    ensures Kept(x, cell) as int ==
            (if n < 1 then 1 else if n < 0x8000_0000_0000_0000 then n % 65536 else 65535)
    ensures DevicePixels(x) as int ==
            if pixels < 1 then 1 else if pixels < 0x8000_0000_0000_0000 then pixels % 0x1_0000_0000 else 0xffff_ffff
  {
  }

  // The wheel

  const I32_MIN := -0x8000_0000
  const I32_MAX := 0x7fff_ffff

  /** Whole cells in `x`, towards zero, held to 32 bits. */
  function Whole(x: real): (n: int)
    ensures I32_MIN <= n <= I32_MAX
  {
    var n := if x >= 0.0 then x.Floor else -((-x).Floor);
    if n < I32_MIN then I32_MIN else if n > I32_MAX then I32_MAX else n
  }

  /** Towards zero, and held to 32 bits. */
  lemma WholeExactly(x: real, n: int)
    requires -0x8000_0000 <= n <= 0x7fff_ffff
    ensures n == Whole(x) <==>
            if x >= 0x7fff_ffff as real then n == 0x7fff_ffff
            else if x <= -0x8000_0000 as real then n == -0x8000_0000
            else if x >= 0.0 then n as real <= x < (n + 1) as real
            else (n - 1) as real < x <= n as real
  {
  }

  function Sum(deltas: seq<real>): real {
    if deltas == [] then 0.0 else Sum(deltas[..|deltas| - 1]) + deltas[|deltas| - 1]
  }

  /** One axis of the accumulator: what is left over after some deltas, and the cells given out. */
  datatype Axis = Axis(left: real, given: int)

  function Turned(a: Axis, delta: real, cell: real): Axis
    requires cell > 0.0
  {
    var n := Whole((a.left + delta) / cell);
    Axis(a.left + delta - n as real * cell, a.given + n)
  }

  function TurnedAll(deltas: seq<real>, cell: real): Axis
    requires cell > 0.0
  {
    if deltas == [] then Axis(0.0, 0) else Turned(TurnedAll(deltas[..|deltas| - 1], cell), deltas[|deltas| - 1], cell)
  }

  class WheelAxis {
    var left: real
    ghost var given: int

    constructor ()
      ensures left == 0.0 && given == 0
    {
      left, given := 0.0, 0;
    }

    method Turn(delta: real, cell: real) returns (cells: int)
      requires cell > 0.0
      modifies this
      ensures Axis(left, given) == Turned(old(Axis(left, given)), delta, cell) && cells == given - old(given)
    {
      left := left + delta;
      cells := Whole(left / cell);
      left := left - cells as real * cell;
      given := given + cells;
    }
  }

  lemma Distributes(m: int, n: int, cell: real)
    ensures (m + n) as real * cell == m as real * cell + n as real * cell
  {
  }

  /** The deltas so far, from what was given out and what is left over. */
  function Total(a: Axis, cell: real): real {
    a.given as real * cell + a.left
  }

  lemma TurnAdds(a: Axis, delta: real, cell: real)
    requires cell > 0.0
    ensures Total(Turned(a, delta, cell), cell) == Total(a, cell) + delta
  {
    Distributes(a.given, Whole((a.left + delta) / cell), cell);
  }

  /** Nothing turned is lost: what was given out and what is left over add up to it. */
  lemma {:induction false} TurningIsConserved(deltas: seq<real>, cell: real)
    requires cell > 0.0
    ensures Total(TurnedAll(deltas, cell), cell) == Sum(deltas)
    decreases |deltas|
  {
    if deltas == [] {
      assert 0 as real * cell == 0.0;
    } else {
      TurningIsConserved(deltas[..|deltas| - 1], cell);
      TurnAdds(TurnedAll(deltas[..|deltas| - 1], cell), deltas[|deltas| - 1], cell);
    }
  }

  /** The sum stays within 32 bits of cells, and never turns back. */
  ghost predicate Forward(deltas: seq<real>, cell: real) {
    (forall i | 0 <= i < |deltas| :: deltas[i] >= 0.0) && Sum(deltas) < 0x7fff_ffff as real * cell
  }

  lemma Quotient(x: real, cell: real)
    requires cell > 0.0
    ensures (x / cell) * cell == x
  {
  }

  lemma Scaled(p: real, q: real, cell: real)
    requires cell > 0.0 && p <= q
    ensures p * cell <= q * cell
  {
  }

  lemma ScaledLess(p: real, q: real, cell: real)
    requires cell > 0.0 && p < q
    ensures p * cell < q * cell
  {
  }

  lemma WholePart(x: real, cell: real)
    requires cell > 0.0 && 0.0 <= x < 0x7fff_ffff as real * cell
    ensures Whole(x / cell) >= 0 && 0.0 <= x - Whole(x / cell) as real * cell < cell
  {
    var q := x / cell;
    QuotientWithin(x, q, cell);
    assert Whole(q) == q.Floor;
    FloorPart(x, q, q.Floor, q.Floor as real * cell, (q.Floor + 1) as real * cell, cell);
  }

  lemma QuotientWithin(x: real, q: real, cell: real)
    requires cell > 0.0 && q == x / cell && 0.0 <= x < 0x7fff_ffff as real * cell
    ensures 0.0 <= q < 0x7fff_ffff as real && q * cell == x
  {
    Quotient(x, cell);
    if q < 0.0 {
      ScaledLess(q, 0.0, cell);
    } else if q >= 0x7fff_ffff as real {
      Scaled(0x7fff_ffff as real, q, cell);
    }
  }

  lemma FloorPart(x: real, q: real, n: int, a: real, b: real, cell: real)
    requires cell > 0.0 && q * cell == x && n as real <= q < (n + 1) as real
    requires a == n as real * cell && b == (n + 1) as real * cell
    ensures 0.0 <= x - a < cell
  {
    assert a <= x by { Scaled(n as real, q, cell); }
    assert x < b by { ScaledLess(q, (n + 1) as real, cell); }
    assert b == a + cell by { NextCell(n, cell); }
  }

  lemma NextCell(n: int, cell: real)
    ensures (n + 1) as real * cell == n as real * cell + cell
  {
    Distributes(n, 1, cell);
    assert 1 as real * cell == cell;
  }

  lemma TurnForward(a: Axis, delta: real, cell: real)
    requires cell > 0.0 && 0.0 <= a.left + delta < 0x7fff_ffff as real * cell
    ensures var b := Turned(a, delta, cell); 0.0 <= b.left < cell && b.given >= a.given
  {
    WholePart(a.left + delta, cell);
  }

  /** A forward turn leaves over less than a cell. */
  lemma {:induction false} LeftOverIsLessThanACell(deltas: seq<real>, cell: real)
    requires cell > 0.0 && Forward(deltas, cell)
    ensures var a := TurnedAll(deltas, cell); 0.0 <= a.left < cell && a.given >= 0
    decreases |deltas|
  {
    if deltas != [] {
      var init, last := deltas[..|deltas| - 1], deltas[|deltas| - 1];
      assert Forward(init, cell);
      LeftOverIsLessThanACell(init, cell);
      TurningIsConserved(init, cell);
      var a := TurnedAll(init, cell);
      Given(a, cell);
      assert a.left + last <= Sum(deltas);
      TurnForward(a, last, cell);
    }
  }

  lemma Given(a: Axis, cell: real)
    requires cell > 0.0 && a.given >= 0
    ensures a.left <= Total(a, cell)
  {
    Scaled(0.0, a.given as real, cell);
  }

  /** However a turn one way is cut into events, it scrolls the same number of cells. */
  lemma SameTurnSameCells(a: seq<real>, b: seq<real>, cell: real)
    requires cell > 0.0 && Sum(a) == Sum(b) && Forward(a, cell) && Forward(b, cell)
    ensures TurnedAll(a, cell) == TurnedAll(b, cell)
  {
    TurningIsConserved(a, cell);
    TurningIsConserved(b, cell);
    LeftOverIsLessThanACell(a, cell);
    LeftOverIsLessThanACell(b, cell);
    SameTotalSameAxis(TurnedAll(a, cell), TurnedAll(b, cell), cell);
  }

  function Negated(deltas: seq<real>): (r: seq<real>)
    ensures |r| == |deltas| && forall i | 0 <= i < |deltas| :: r[i] == -deltas[i]
  {
    seq(|deltas|, i requires 0 <= i < |deltas| => -deltas[i])
  }

  lemma {:induction false} SumNegated(deltas: seq<real>)
    ensures Sum(Negated(deltas)) == -Sum(deltas)
    decreases |deltas|
  {
    if deltas != [] {
      SumNegated(deltas[..|deltas| - 1]);
      assert Negated(deltas)[..|deltas| - 1] == Negated(deltas[..|deltas| - 1]);
    }
  }

  lemma WholeNegated(x: real)
    requires -(0x7fff_ffff as real) < x < 0x7fff_ffff as real
    ensures Whole(-x) == -Whole(x)
  {
  }

  lemma TurnNegated(a: Axis, delta: real, cell: real)
    requires cell > 0.0 && 0.0 <= a.left + delta < 0x7fff_ffff as real * cell
    ensures var b := Turned(a, delta, cell); Turned(Axis(-a.left, -a.given), -delta, cell) == Axis(-b.left, -b.given)
  {
    var x := a.left + delta;
    var q := x / cell;
    QuotientWithin(x, q, cell);
    WholeNegated(q);
    NegatedQuotient(x, cell);
    NegatedProduct(Whole(q), cell);
  }

  lemma NegatedQuotient(x: real, cell: real)
    requires cell > 0.0
    ensures (-x) / cell == -(x / cell)
  {
  }

  lemma NegatedProduct(n: int, cell: real)
    ensures (-n) as real * cell == -(n as real * cell)
  {
  }

  /** Turning back mirrors turning forward. */
  lemma {:induction false} TurnedNegated(deltas: seq<real>, cell: real)
    requires cell > 0.0 && Forward(deltas, cell)
    ensures var a := TurnedAll(deltas, cell); TurnedAll(Negated(deltas), cell) == Axis(-a.left, -a.given)
    decreases |deltas|
  {
    if deltas != [] {
      var init, last := deltas[..|deltas| - 1], deltas[|deltas| - 1];
      assert Forward(init, cell);
      TurnedNegated(init, cell);
      LeftOverIsLessThanACell(init, cell);
      TurningIsConserved(init, cell);
      var a := TurnedAll(init, cell);
      Given(a, cell);
      assert a.left + last <= Sum(deltas);
      TurnNegated(a, last, cell);
      assert Negated(deltas)[..|deltas| - 1] == Negated(init);
    }
  }

  lemma TurnedBack(deltas: seq<real>, cell: real, forward: seq<real>, a: Axis)
    requires cell > 0.0 && forward == Negated(deltas) && Forward(forward, cell) && a == TurnedAll(forward, cell)
    ensures TurnedAll(deltas, cell) == Axis(-a.left, -a.given)
  {
    TurnedNegated(forward, cell);
    assert Negated(forward) == deltas;
  }

  /** So a turn back may be cut as well. */
  lemma SameTurnBackSameCells(a: seq<real>, b: seq<real>, cell: real)
    requires cell > 0.0 && Sum(a) == Sum(b) && Forward(Negated(a), cell) && Forward(Negated(b), cell)
    ensures TurnedAll(a, cell) == TurnedAll(b, cell)
  {
    var forwardA, forwardB := Negated(a), Negated(b);
    SumNegated(a);
    SumNegated(b);
    SameTurnSameCells(forwardA, forwardB, cell);
    var axis := TurnedAll(forwardA, cell);
    TurnedBack(a, cell, forwardA, axis);
    TurnedBack(b, cell, forwardB, axis);
  }

  /** No event turns further than 32 bits of cells. */
  ghost predicate Bounded(deltas: seq<real>, cell: real) {
    forall i | 0 <= i < |deltas| :: -(0x7fff_fffe as real * cell) <= deltas[i] <= 0x7fff_fffe as real * cell
  }

  lemma TurnLeavesLess(a: Axis, delta: real, cell: real)
    requires cell > 0.0 && -cell < a.left < cell && -(0x7fff_fffe as real * cell) <= delta <= 0x7fff_fffe as real * cell
    ensures -cell < Turned(a, delta, cell).left < cell
  {
    NextCell(0x7fff_fffe, cell);
    var x := a.left + delta;
    if x >= 0.0 {
      WholePart(x, cell);
    } else {
      WholePartNegated(x, -x, -x / cell, cell);
    }
  }

  lemma WholePartNegated(x: real, y: real, q: real, cell: real)
    requires cell > 0.0 && y == -x && 0.0 <= y < 0x7fff_ffff as real * cell && q == y / cell
    ensures -cell < x - Whole(x / cell) as real * cell <= 0.0
  {
    WholePart(y, cell);
    QuotientWithin(y, q, cell);
    WholeNegated(q);
    NegatedQuotient(y, cell);
    NegatedProduct(Whole(q), cell);
  }

  lemma {:induction false} LeftOverIsWithinACell(deltas: seq<real>, cell: real)
    requires cell > 0.0 && Bounded(deltas, cell)
    ensures -cell < TurnedAll(deltas, cell).left < cell
    decreases |deltas|
  {
    if deltas != [] {
      var init := deltas[..|deltas| - 1];
      assert Bounded(init, cell);
      LeftOverIsWithinACell(init, cell);
      TurnLeavesLess(TurnedAll(init, cell), deltas[|deltas| - 1], cell);
    }
  }

  /** Turns to and fro that add up to the same scroll the same but for one cell, however they are cut. */
  lemma AnyTurnsWithinACell(a: seq<real>, b: seq<real>, cell: real)
    requires cell > 0.0 && Sum(a) == Sum(b) && Bounded(a, cell) && Bounded(b, cell)
    ensures -1 <= TurnedAll(a, cell).given - TurnedAll(b, cell).given <= 1
  {
    TurningIsConserved(a, cell);
    TurningIsConserved(b, cell);
    LeftOverIsWithinACell(a, cell);
    LeftOverIsWithinACell(b, cell);
    WithinACell(TurnedAll(a, cell), TurnedAll(b, cell), cell);
    WithinACell(TurnedAll(b, cell), TurnedAll(a, cell), cell);
  }

  lemma WithinACell(a: Axis, b: Axis, cell: real)
    requires cell > 0.0 && Total(a, cell) == Total(b, cell) && -cell < a.left && b.left < cell
    ensures a.given <= b.given + 1
  {
    var m, n := a.given, b.given;
    NextCell(n, cell);
    NextCell(n + 1, cell);
    if n + 2 <= m {
      Scaled((n + 1 + 1) as real, m as real, cell);
    }
  }

  /** Whatever the turns, and however they are cut: two that add up to the same scroll the same number of cells if
      and only if what they leave over is not of opposite signs. */
  lemma SameCellsExactly(a: seq<real>, b: seq<real>, cell: real)
    requires cell > 0.0 && Sum(a) == Sum(b) && Bounded(a, cell) && Bounded(b, cell)
    ensures var x, y := TurnedAll(a, cell), TurnedAll(b, cell);
            x.given == y.given <==> (x.left >= 0.0 && y.left >= 0.0) || (x.left <= 0.0 && y.left <= 0.0)
  {
    TurningIsConserved(a, cell);
    TurningIsConserved(b, cell);
    LeftOverIsWithinACell(a, cell);
    LeftOverIsWithinACell(b, cell);
    AxesAgreeExactly(TurnedAll(a, cell), TurnedAll(b, cell), cell);
  }

  lemma AxesAgreeExactly(x: Axis, y: Axis, cell: real)
    requires cell > 0.0 && Total(x, cell) == Total(y, cell) && -cell < x.left < cell && -cell < y.left < cell
    ensures x.given == y.given <==> (x.left >= 0.0 && y.left >= 0.0) || (x.left <= 0.0 && y.left <= 0.0)
  {
    if x.given == y.given {
      assert x.left == y.left;
    } else if x.left >= 0.0 && y.left >= 0.0 {
      NotMore(x, y, cell);
      NotMore(y, x, cell);
    } else if x.left <= 0.0 && y.left <= 0.0 {
      NotMoreBack(x, y, cell);
      NotMoreBack(y, x, cell);
    }
  }

  lemma NotMoreBack(a: Axis, b: Axis, cell: real)
    requires cell > 0.0 && Total(a, cell) == Total(b, cell) && a.left > -cell && b.left <= 0.0
    ensures a.given <= b.given
  {
    var m, n := a.given, b.given;
    NextCell(n, cell);
    if n + 1 <= m {
      Scaled((n + 1) as real, m as real, cell);
    }
  }

  /** Half a cell forward gives nothing; a cell forward and half a cell back gives one. */
  lemma ThereAndBack()
    ensures TurnedAll([0.5], 1.0) == Axis(0.5, 0) && TurnedAll([1.0, -0.5], 1.0) == Axis(-0.5, 1)
  {
    assert [0.5][..0] == [] && [1.0, -0.5][..1] == [1.0] && [1.0][..0] == [];
    assert TurnedAll([], 1.0) == Axis(0.0, 0);
    HalvesAndWholes();
  }

  lemma HalvesAndWholes()
    ensures Turned(Axis(0.0, 0), 0.5, 1.0) == Axis(0.5, 0) && Turned(Axis(0.0, 0), 1.0, 1.0) == Axis(0.0, 1)
    ensures Turned(Axis(0.0, 1), -0.5, 1.0) == Axis(-0.5, 1)
  {
    assert Whole(0.5) == 0 && Whole(1.0) == 1 && Whole(-0.5) == 0;
  }

  lemma SameTotalSameAxis(a: Axis, b: Axis, cell: real)
    requires cell > 0.0 && Total(a, cell) == Total(b, cell)
    requires 0.0 <= a.left < cell && 0.0 <= b.left < cell
    ensures a == b
  {
    NotMore(a, b, cell);
    NotMore(b, a, cell);
    assert a.given as real * cell == b.given as real * cell;
  }

  lemma NotMore(a: Axis, b: Axis, cell: real)
    requires cell > 0.0 && Total(a, cell) == Total(b, cell) && a.left >= 0.0 && b.left < cell
    ensures a.given <= b.given
  {
    var m, n := a.given, b.given;
    NextCell(n, cell);
    if n + 1 <= m {
      Scaled((n + 1) as real, m as real, cell);
    }
  }
}
