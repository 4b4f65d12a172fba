/** The first-order (bilinear) stencil of `GhostBC2D`: the 2x2 block of
    neighbour cells found by `findNbs`, the area weights computed by
    `calWts`, and the weighted sum that `interpolation` forms from them. */
module Stencil {
  import opened External

  /** Neighbours per boundary point (`numNbs`). */
  const NumNbs: nat := 4

  /** The 2x2 block whose lower corner is (r, c), in the source's order
      (r, c), (r, c + 1), (r + 1, c), (r + 1, c + 1): four distinct cells,
      which are exactly the cells of the block. */
  function Block(r: int, c: int): (b: seq<Cell>)
    ensures |b| == NumNbs && b[0] == Cell(r, c)
    ensures forall x: Cell :: x in b <==> r <= x.row <= r + 1 && c <= x.col <= c + 1
    ensures forall j, k :: 0 <= j < k < |b| ==> b[j] != b[k]
  {
    var b := [Cell(r, c), Cell(r, c + 1), Cell(r + 1, c), Cell(r + 1, c + 1)];
    assert forall x: Cell :: r <= x.row <= r + 1 && c <= x.col <= c + 1 ==> x in b by {
      forall x: Cell | r <= x.row <= r + 1 && c <= x.col <= c + 1 ensures x in b {
        assert x == Cell(x.row, x.col);
      }
    }
    b
  }

  /** The block of the complementary grid that encloses `p`. */
  function Neighbours(g: Grid, p: Coord): (b: seq<Cell>)
    ensures |b| == NumNbs
    ensures b[0] == Cell(g.thetaToIndex(p.theta), g.phiToIndex(p.phi))
  {
    Block(g.thetaToIndex(p.theta), g.phiToIndex(p.phi))
  }

  /** The area weights of a point at offset (x, y) from the lower corner of
      a dt-by-dp cell: each neighbour's weight is the area of the
      sub-rectangle diagonally opposite to it, divided by the cell area. */
  function CellAreas(x: real, y: real, dt: real, dp: real): (w: seq<real>)
    requires dt * dp != 0.0
    ensures |w| == NumNbs
  {
    var s0 := dt * dp;
    [(dt - x) * (dp - y) / s0, (dt - x) * y / s0, x * (dp - y) / s0, x * y / s0]
  }

  /** `CellAreas` written over the four side lengths of the sub-rectangles
      around the point, as `calWts` computes them. */
  lemma CellAreasFromSides(x: real, y: real, dt: real, dp: real, xHi: real, yHi: real)
    requires dt * dp != 0.0
    requires xHi == dt - x && yHi == dp - y
    ensures CellAreas(x, y, dt, dp)
      == [xHi * yHi / (dt * dp), xHi * y / (dt * dp), x * yHi / (dt * dp), x * y / (dt * dp)]
  {
    var w, s0 := CellAreas(x, y, dt, dp), dt * dp;
    ProductQuotientCongruent(dt - x, dp - y, xHi, yHi, s0);
    ProductQuotientCongruent(dt - x, y, xHi, y, s0);
    ProductQuotientCongruent(x, dp - y, x, yHi, s0);
    assert w[0] == xHi * yHi / s0;
    assert w[1] == xHi * y / s0;
    assert w[2] == x * yHi / s0;
  }

  lemma ProductQuotientCongruent(a: real, b: real, c: real, d: real, s: real)
    requires s != 0.0 && a == c && b == d
    ensures a * b / s == c * d / s
  {
  }

  /** The weights `calWts` computes for a point `p` of the complementary
      frame, in the cell of `g` whose lower corner is `origin`. */
  function AreaWeights(g: Grid, p: Coord, origin: Cell): (w: seq<real>)
    requires g.dTheta * g.dPhi != 0.0
    ensures |w| == NumNbs
  {
    CellAreas(p.theta - g.theta(origin.row), p.phi - g.phi(origin.col), g.dTheta, g.dPhi)
  }

  /** Reference definition of bilinear interpolation: the tensor product of
      two linear interpolations, at fractional position (a, b) in the cell. */
  function Hat(a: real, b: real): seq<real> {
    [(1.0 - a) * (1.0 - b), (1.0 - a) * b, a * (1.0 - b), a * b]
  }

  /** Sum of the first k weights. */
  function Total(w: seq<real>, k: nat): real
    requires k <= |w|
  {
    if k == 0 then 0.0 else Total(w, k - 1) + w[k - 1]
  }

  /** Cell `x` is an index into the 2D field `f`. */
  predicate InField(x: Cell, f: seq<seq<real>>) {
    0 <= x.row < |f| && 0 <= x.col < |f[x.row]|
  }

  function At(f: seq<seq<real>>, x: Cell): real
    requires InField(x, f)
  {
    f[x.row][x.col]
  }

  /** sum over j < k of w[j] * f[nb[j]], accumulated in the source's order. */
  function WeightedSum(w: seq<real>, nb: seq<Cell>, f: seq<seq<real>>, k: nat): real
    requires k <= |w| && k <= |nb|
    requires forall j :: 0 <= j < k ==> InField(nb[j], f)
  {
    if k == 0 then 0.0 else WeightedSum(w, nb, f, k - 1) + w[k - 1] * At(f, nb[k - 1])
  }

  // Small facts of real arithmetic, kept apart so that each proof below
  // sees only the products it needs.

  lemma NonZeroFactors(u: real, v: real)
    requires u * v != 0.0
    ensures u != 0.0 && v != 0.0
  {
  }

  lemma QuotientOfProducts(x: real, y: real, u: real, v: real)
    requires u != 0.0 && v != 0.0
    ensures x * y / (u * v) == (x / u) * (y / v)
  {
  }

  /** An area u' v' over the cell area u v is the product of the two
      fractions u' / u and v' / v. */
  lemma AreaIsProduct(x: real, y: real, u: real, v: real, e: real, f: real)
    requires u != 0.0 && v != 0.0
    requires x / u == e && y / v == f
    ensures x * y / (u * v) == e * f
  {
    QuotientOfProducts(x, y, u, v);
  }

  lemma MulDivCancel(x: real, u: real)
    requires u != 0.0
    ensures (x * u) / u == x && (x / u) * u == x
  {
  }

  lemma Complement(x: real, d: real)
    requires d != 0.0
    ensures (d - x) / d == 1.0 - x / d
  {
    var e := 1.0 - x / d;
    MulDivCancel(x, d);
    assert e * d == d - (x / d) * d;
    assert e * d == d - x;
    MulDivCancel(e, d);
  }

  lemma FractionInUnit(x: real, d: real)
    requires 0.0 < d && 0.0 <= x <= d
    ensures 0.0 <= x / d <= 1.0
  {
  }

  lemma ProductNonNegative(x: real, y: real)
    requires 0.0 <= x && 0.0 <= y
    ensures 0.0 <= x * y
  {
  }

  lemma MulMonotone(x: real, y: real, z: real)
    requires 0.0 <= z && x <= y
    ensures x * z <= y * z
  {
  }

  lemma ProductInUnit(x: real, y: real)
    requires 0.0 <= x <= 1.0 && 0.0 <= y <= 1.0
    ensures 0.0 <= x * y <= 1.0
  {
    ProductNonNegative(x, y);
    MulMonotone(x, 1.0, y);
    assert x * y <= y;
  }

  /** The four-term sums, unfolded. */
  lemma Total4(w: seq<real>)
    requires |w| == NumNbs
    ensures Total(w, NumNbs) == w[0] + w[1] + w[2] + w[3]
  {
    assert Total(w, 1) == w[0];
    assert Total(w, 2) == w[0] + w[1];
    assert Total(w, 3) == w[0] + w[1] + w[2];
  }

  lemma WeightedSum4(w: seq<real>, nb: seq<Cell>, f: seq<seq<real>>)
    requires |w| == NumNbs && |nb| == NumNbs
    requires forall j :: 0 <= j < NumNbs ==> InField(nb[j], f)
    ensures WeightedSum(w, nb, f, NumNbs)
      == w[0] * At(f, nb[0]) + w[1] * At(f, nb[1]) + w[2] * At(f, nb[2]) + w[3] * At(f, nb[3])
  {
    assert WeightedSum(w, nb, f, 1) == w[0] * At(f, nb[0]);
    assert WeightedSum(w, nb, f, 2) == WeightedSum(w, nb, f, 1) + w[1] * At(f, nb[1]);
    assert WeightedSum(w, nb, f, 3) == WeightedSum(w, nb, f, 2) + w[2] * At(f, nb[2]);
  }

  /** The area weights are bilinear interpolation: they equal the reference
      weights at the point's fractional position (x / dt, y / dp). */
  lemma CellAreasAreBilinear(x: real, y: real, dt: real, dp: real)
    requires dt * dp != 0.0
    ensures dt != 0.0 && dp != 0.0
    ensures CellAreas(x, y, dt, dp) == Hat(x / dt, y / dp)
  {
    NonZeroFactors(dt, dp);
    Complement(x, dt);
    Complement(y, dp);
    var w, h := CellAreas(x, y, dt, dp), Hat(x / dt, y / dp);
    AreaIsProduct(dt - x, dp - y, dt, dp, 1.0 - x / dt, 1.0 - y / dp);
    AreaIsProduct(dt - x, y, dt, dp, 1.0 - x / dt, y / dp);
    AreaIsProduct(x, dp - y, dt, dp, x / dt, 1.0 - y / dp);
    AreaIsProduct(x, y, dt, dp, x / dt, y / dp);
    assert w[0] == h[0] && w[1] == h[1] && w[2] == h[2] && w[3] == h[3];
  }

  /** The reference weights always sum to 1. */
  lemma HatSumsToOne(a: real, b: real)
    ensures Total(Hat(a, b), NumNbs) == 1.0
  {
    var w := Hat(a, b);
    Total4(w);
    assert w[0] + w[1] == 1.0 - a;
    assert w[2] + w[3] == a;
  }

  /** The four weights `calWts` computes sum to 1 whenever the cell area
      dTHETA * dPHI is non-zero, wherever the point lies. */
  lemma WeightsSumToOne(g: Grid, p: Coord, origin: Cell)
    requires g.dTheta * g.dPhi != 0.0
    ensures Total(AreaWeights(g, p, origin), NumNbs) == 1.0
  {
    var x, y := p.theta - g.theta(origin.row), p.phi - g.phi(origin.col);
    CellAreasAreBilinear(x, y, g.dTheta, g.dPhi);
    HatSumsToOne(x / g.dTheta, y / g.dPhi);
  }

  /** `p` lies in the closed cell whose lower corner is `origin`. */
  predicate InCell(g: Grid, p: Coord, origin: Cell) {
    g.theta(origin.row) <= p.theta <= g.theta(origin.row) + g.dTheta &&
    g.phi(origin.col) <= p.phi <= g.phi(origin.col) + g.dPhi
  }

  /** For a point inside its cell of a grid with positive spacings, every
      weight lies in [0, 1]. */
  lemma WeightsInUnitInterval(g: Grid, p: Coord, origin: Cell)
    requires 0.0 < g.dTheta && 0.0 < g.dPhi
    requires InCell(g, p, origin)
    ensures g.dTheta * g.dPhi != 0.0
    ensures forall j :: 0 <= j < NumNbs ==> 0.0 <= AreaWeights(g, p, origin)[j] <= 1.0
  {
    ProductNonNegative(g.dTheta, g.dPhi);
    assert g.dTheta * g.dPhi != 0.0;
    var x, y := p.theta - g.theta(origin.row), p.phi - g.phi(origin.col);
    CellAreasAreBilinear(x, y, g.dTheta, g.dPhi);
    var a, b := x / g.dTheta, y / g.dPhi;
    FractionInUnit(x, g.dTheta);
    FractionInUnit(y, g.dPhi);
    ProductInUnit(1.0 - a, 1.0 - b);
    ProductInUnit(1.0 - a, b);
    ProductInUnit(a, 1.0 - b);
    ProductInUnit(a, b);
  }

  /** At each corner of the cell the weight of that corner's neighbour is 1
      and the other three are 0; in particular at the lower corner
      (theta0, phi0) the weights are [1, 0, 0, 0]. */
  lemma WeightsAtCorners(g: Grid, origin: Cell)
    requires g.dTheta * g.dPhi != 0.0
    ensures var theta0, phi0 := g.theta(origin.row), g.phi(origin.col);
      AreaWeights(g, Coord(theta0, phi0), origin) == [1.0, 0.0, 0.0, 0.0] &&
      AreaWeights(g, Coord(theta0, phi0 + g.dPhi), origin) == [0.0, 1.0, 0.0, 0.0] &&
      AreaWeights(g, Coord(theta0 + g.dTheta, phi0), origin) == [0.0, 0.0, 1.0, 0.0] &&
      AreaWeights(g, Coord(theta0 + g.dTheta, phi0 + g.dPhi), origin) == [0.0, 0.0, 0.0, 1.0]
  {
    var dt, dp := g.dTheta, g.dPhi;
    NonZeroFactors(dt, dp);
    CellAreasAreBilinear(0.0, 0.0, dt, dp);
    CellAreasAreBilinear(0.0, dp, dt, dp);
    CellAreasAreBilinear(dt, 0.0, dt, dp);
    CellAreasAreBilinear(dt, dp, dt, dp);
    assert 0.0 / dt == 0.0 && 0.0 / dp == 0.0 && dt / dt == 1.0 && dp / dp == 1.0;
  }

  /** A field equal to c at the first k neighbours sums to c times the total
      weight. */
  lemma {:induction false} ConstantWeightedSum(w: seq<real>, nb: seq<Cell>, f: seq<seq<real>>, k: nat, c: real)
    requires k <= |w| && k <= |nb|
    requires forall j :: 0 <= j < k ==> InField(nb[j], f) && At(f, nb[j]) == c
    ensures WeightedSum(w, nb, f, k) == c * Total(w, k)
  {
    if k > 0 {
      ConstantWeightedSum(w, nb, f, k - 1, c);
    }
  }

  /** Non-negative weights on a field that is non-negative at the first k
      neighbours give a non-negative sum. */
  lemma {:induction false} WeightedSumNonNegative(w: seq<real>, nb: seq<Cell>, f: seq<seq<real>>, k: nat)
    requires k <= |w| && k <= |nb|
    requires forall j :: 0 <= j < k ==> InField(nb[j], f) && 0.0 <= w[j] && 0.0 <= At(f, nb[j])
    ensures 0.0 <= WeightedSum(w, nb, f, k)
  {
    if k > 0 {
      WeightedSumNonNegative(w, nb, f, k - 1);
      ProductNonNegative(w[k - 1], At(f, nb[k - 1]));
    }
  }

  /** Interpolating with `calWts`'s weights reproduces a field that is the
      constant c at the four neighbours. */
  lemma ConstantFieldReproduced(g: Grid, p: Coord, origin: Cell, f: seq<seq<real>>, c: real)
    requires g.dTheta * g.dPhi != 0.0
    requires forall x :: x in Block(origin.row, origin.col) ==> InField(x, f) && At(f, x) == c
    ensures WeightedSum(AreaWeights(g, p, origin), Block(origin.row, origin.col), f, NumNbs) == c
  {
    var nb := Block(origin.row, origin.col);
    assert forall j :: 0 <= j < NumNbs ==> nb[j] in nb;
    ConstantWeightedSum(AreaWeights(g, p, origin), nb, f, NumNbs, c);
    WeightsSumToOne(g, p, origin);
  }

  /** A + B x + C y + D x y. */
  function Bilinear(A: real, B: real, C: real, D: real, x: real, y: real): real {
    A + B * x + C * y + D * x * y
  }

  /** Bilinear interpolation on the unit square is exact for bilinear data:
      with corner values v00 = alpha, v01 = alpha + gamma,
      v10 = alpha + beta, v11 = alpha + beta + gamma + delta it returns
      alpha + beta a + gamma b + delta a b. */
  lemma HatExact(a: real, b: real, alpha: real, beta: real, gamma: real, delta: real)
    ensures var w := Hat(a, b);
      w[0] * alpha + w[1] * (alpha + gamma) + w[2] * (alpha + beta) + w[3] * (alpha + beta + gamma + delta)
      == alpha + beta * a + gamma * b + delta * a * b
  {
    var w := Hat(a, b);
    assert w[0] + w[1] + w[2] + w[3] == 1.0 by { HatSumsToOne(a, b); Total4(w); }
    assert w[2] + w[3] == a;
    assert w[1] + w[3] == b;
  }

  /** The complementary grid is uniform across the cell at `origin`: the
      next row and column lie one spacing further on. */
  predicate UniformAt(g: Grid, origin: Cell) {
    g.theta(origin.row + 1) == g.theta(origin.row) + g.dTheta &&
    g.phi(origin.col + 1) == g.phi(origin.col) + g.dPhi
  }

  /** Interpolation is exact for fields that are bilinear in (theta, phi):
      if the field at the four neighbours equals A + B theta + C phi +
      D theta phi at their grid angles, the interpolated value is that
      function at the point itself. */
  lemma BilinearFieldReproduced(g: Grid, p: Coord, origin: Cell, f: seq<seq<real>>,
                                A: real, B: real, C: real, D: real)
    requires g.dTheta * g.dPhi != 0.0
    requires UniformAt(g, origin)
    requires forall x :: x in Block(origin.row, origin.col) ==>
      InField(x, f) && At(f, x) == Bilinear(A, B, C, D, g.theta(x.row), g.phi(x.col))
    ensures WeightedSum(AreaWeights(g, p, origin), Block(origin.row, origin.col), f, NumNbs)
      == Bilinear(A, B, C, D, p.theta, p.phi)
  {
    var nb := Block(origin.row, origin.col);
    var w := AreaWeights(g, p, origin);
    var theta0, phi0 := g.theta(origin.row), g.phi(origin.col);
    var dt, dp := g.dTheta, g.dPhi;
    var x, y := p.theta - theta0, p.phi - phi0;
    CellAreasAreBilinear(x, y, dt, dp);
    var a, b := x / dt, y / dp;
    assert w == Hat(a, b);
    MulDivCancel(x, dt);
    MulDivCancel(y, dp);
    assert p.theta == theta0 + a * dt && p.phi == phi0 + b * dp;
    assert forall j :: 0 <= j < NumNbs ==> nb[j] in nb;
    WeightedSum4(w, nb, f);
    HatOfBilinearCorners(a, b, A, B, C, D, theta0, phi0, dt, dp,
      At(f, nb[0]), At(f, nb[1]), At(f, nb[2]), At(f, nb[3]));
  }

  /** The step of `BilinearFieldReproduced` on plain numbers: the hat
      weights at (a, b) applied to a bilinear function's values at the four
      corners of the cell [t, t + dt] x [q, q + dp] give its value at
      (t + a dt, q + b dp). */
  lemma HatOfBilinearCorners(a: real, b: real, A: real, B: real, C: real, D: real,
                             t: real, q: real, dt: real, dp: real,
                             v0: real, v1: real, v2: real, v3: real)
    requires v0 == Bilinear(A, B, C, D, t, q)
    requires v1 == Bilinear(A, B, C, D, t, q + dp)
    requires v2 == Bilinear(A, B, C, D, t + dt, q)
    requires v3 == Bilinear(A, B, C, D, t + dt, q + dp)
    ensures var w := Hat(a, b);
      w[0] * v0 + w[1] * v1 + w[2] * v2 + w[3] * v3
      == Bilinear(A, B, C, D, t + a * dt, q + b * dp)
  {
    var alpha := Bilinear(A, B, C, D, t, q);
    var beta := (B + D * q) * dt;
    var gamma := (C + D * t) * dp;
    var delta := D * dt * dp;
    BilinearCorners(A, B, C, D, t, q, dt, dp);
    HatExact(a, b, alpha, beta, gamma, delta);
    BilinearAtOffset(A, B, C, D, t, q, dt, dp, a, b);
  }

  lemma BilinearCorners(A: real, B: real, C: real, D: real, t: real, q: real, dt: real, dp: real)
    ensures var alpha := Bilinear(A, B, C, D, t, q);
      Bilinear(A, B, C, D, t, q + dp) == alpha + (C + D * t) * dp &&
      Bilinear(A, B, C, D, t + dt, q) == alpha + (B + D * q) * dt &&
      Bilinear(A, B, C, D, t + dt, q + dp)
        == alpha + (B + D * q) * dt + (C + D * t) * dp + D * dt * dp
  {
  }

  lemma BilinearAtOffset(A: real, B: real, C: real, D: real, t: real, q: real,
                         dt: real, dp: real, a: real, b: real)
    ensures Bilinear(A, B, C, D, t + a * dt, q + b * dp)
      == Bilinear(A, B, C, D, t, q) + (B + D * q) * dt * a + (C + D * t) * dp * b + D * dt * dp * a * b
  {
  }
}
