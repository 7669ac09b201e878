/** The line loop of `createGrid`: a square grid of lines on the XZ plane.

    Iteration i of the loop sets the current colour (the tick colour when
    i is a multiple of `ticks`, the plain colour otherwise) and adds two
    lines at grid coordinate u_i: one parallel to the z axis (x = u_i) and
    one parallel to the x axis (z = u_i), each with both end colours equal
    to the current colour. The coordinates are floating point and are not
    modelled: a line is identified by its iteration and its direction. */
module FloorGrid {
  import Numbering

  /** Which way a line runs: `line(u,0,-r, u,0,r)` runs along z,
      `line(-r,0,u, r,0,u)` runs along x. */
  datatype Direction = AlongZ | AlongX

  /** The line added in iteration `step` running in `direction`. */
  datatype GridLine = GridLine(step: nat, direction: Direction)

  function Abs(x: int): nat
  {
    if x < 0 then -x else x
  }

  /** JavaScript's `a % b` for integers and b != 0: the remainder truncates
      toward zero, so it takes the sign of the dividend. */
  function JsRemainder(a: int, b: int): int
    requires b != 0
  {
    if a < 0 then -(Abs(a) % Abs(b)) else a % Abs(b)
  }

  /** `(i % ticks) == 0` as JavaScript evaluates it for a loop counter i >= 0.
      For ticks == 0 the remainder is NaN, which equals nothing. */
  predicate IsTickLine(i: nat, ticks: int): (r: bool)
    ensures ticks != 0 ==> (r <==> JsRemainder(i, ticks) == 0)
    ensures ticks == 0 ==> !r
  {
    ticks != 0 && i % Abs(ticks) == 0
  }

  /** The colour of both lines of iteration i. */
  function LineColor<C>(i: nat, ticks: int, color: C, tickColor: C): (r: C)
    ensures r == tickColor || r == color
    ensures IsTickLine(i, ticks) ==> r == tickColor
    ensures !IsTickLine(i, ticks) ==> r == color
  {
    if IsTickLine(i, ticks) then tickColor else color
  }

  /** Number of loop iterations of `for (i = 0; i < count; i++)`. */
  function Iterations(count: int): nat
  {
    if count < 0 then 0 else count
  }

  /** The line list and the colour list after the first `done` iterations:
      entries 2i and 2i+1 are iteration i's two lines, each coloured
      end to end with that iteration's colour. */
  ghost predicate LinesUpTo<C>(ticks: int, color: C, tickColor: C, pts: seq<GridLine>, colors: seq<(C, C)>, done: nat)
  {
    |pts| == 2 * done && |colors| == 2 * done &&
    (forall p | 0 <= p < |pts| :: pts[p] == GridLine(p / 2, if p % 2 == 0 then AlongZ else AlongX)) &&
    (forall p | 0 <= p < |colors| ::
       colors[p] == (LineColor(p / 2, ticks, color, tickColor), LineColor(p / 2, ticks, color, tickColor)))
  }

  /** The line loop of `createGrid`: returns the `pts` and `colors` lists
      handed to the line system. */
  method CreateGrid<C>(count: int, ticks: int, color: C, tickColor: C)
    returns (pts: seq<GridLine>, colors: seq<(C, C)>)
    ensures LinesUpTo(ticks, color, tickColor, pts, colors, Iterations(count))
  {
    pts, colors := [], [];
    var currentColor := color;
    var i := 0;
    while i < count
      invariant 0 <= i <= Iterations(count)
      invariant LinesUpTo(ticks, color, tickColor, pts, colors, i)
    {
      currentColor := if ticks != 0 && JsRemainder(i, ticks) == 0 then tickColor else color;
      pts, colors := pts + [GridLine(i, AlongZ)], colors + [(currentColor, currentColor)];
      pts, colors := pts + [GridLine(i, AlongX)], colors + [(currentColor, currentColor)];
      i := i + 1;
    }
  }

  /** The grid has exactly two lines per iteration; those of iteration i
      run along z and along x and both get the tick colour when i is a
      multiple of `ticks`, the plain colour otherwise (and when the two
      colours differ, the tick colour exactly then). */
  lemma IterationLines<C>(count: int, ticks: int, color: C, tickColor: C,
                          pts: seq<GridLine>, colors: seq<(C, C)>, i: nat)
    requires LinesUpTo(ticks, color, tickColor, pts, colors, Iterations(count))
    requires i < count
    ensures |pts| == |colors| == 2 * count
    ensures pts[2 * i] == GridLine(i, AlongZ) && pts[2 * i + 1] == GridLine(i, AlongX)
    ensures colors[2 * i] == colors[2 * i + 1] == (LineColor(i, ticks, color, tickColor), LineColor(i, ticks, color, tickColor))
    ensures color != tickColor ==> (colors[2 * i].0 == tickColor <==> IsTickLine(i, ticks))
  {
  }

  /** Tick lines are exactly the multiples of |ticks|: iteration k·|ticks|
      is a tick line, and iteration k·|ticks| + r with 0 < r < |ticks| is not.
      With ticks == 0 no line is a tick line. */
  lemma TickLinePattern(ticks: int, k: nat, r: nat)
    ensures ticks == 0 ==> !IsTickLine(k, ticks)
    ensures ticks != 0 && r < Abs(ticks) ==> (IsTickLine(k * Abs(ticks) + r, ticks) <==> r == 0)
  {
    if ticks != 0 && r < Abs(ticks) {
      Numbering.DivModUnique(k * Abs(ticks) + r, Abs(ticks), k, r);
    }
  }
}
