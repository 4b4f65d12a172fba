/** The collaborators the boundary coupler only queries, and the value types
    it passes around.

    The C math library (`sin`, `cos`, `acos`) and the complementary patch's
    grid (`NormalGrids2D`) are outside the model: both are given as records
    of function values, so that every property proved below holds for ANY
    trigonometry and ANY grid that meet the stated hypotheses. `double` is
    modelled as `real`. */
module External {

  /** A cell of a patch grid, (row, column) = (theta index, phi index);
      `pair<int, int>` in the source. */
  datatype Cell = Cell(row: int, col: int)

  /** An angular coordinate (theta, phi) in one patch's own frame;
      `pair<double, double>` in the source. */
  datatype Coord = Coord(theta: real, phi: real)

  /** The trigonometric functions of the C library, uninterpreted. */
  datatype Trig = Trig(sin: real -> real, cos: real -> real, acos: real -> real)

  /** The read-only queries the coupler makes of the complementary grid:
      the index of the cell enclosing an angle, the angle of a row or
      column, and the two grid spacings. */
  datatype Grid = Grid(
    thetaToIndex: real -> int,
    phiToIndex: real -> int,
    theta: int -> real,
    phi: int -> real,
    dTheta: real,
    dPhi: real)

  /** `fabs` on a double. */
  function Abs(x: real): (r: real)
    ensures 0.0 <= r && (r == x || r == -x)
  {
    if x < 0.0 then -x else x
  }
}
