/** The ghost-cell boundary coupler of one Yin/Yang patch (`GhostBC2D`).

    At construction it records the patch's boundary points, transforms them
    into the complementary patch's frame, finds for each the 2x2 block of
    complementary cells around it and the bilinear weights of those cells.
    Afterwards `Interpolation` fills a caller-owned buffer with the weighted
    sums of any field of the complementary patch, one value per boundary
    point. The tables are sequences that the construction steps rewrite
    entry by entry; the output buffer is an array written in place. */
module GhostBoundary {
  import opened External
  import opened Transform
  import opened Stencil

  class GhostBC2D {
    /** (theta, phi) of each boundary point, in this patch's frame. */
    var angles: seq<Coord>
    /** The same points in the complementary patch's frame. */
    var anglesPrim: seq<Coord>
    /** For each point, its NumNbs neighbour cells in the complementary grid. */
    var nbs: seq<seq<Cell>>
    /** For each point, the interpolation weight of each neighbour. */
    var weights: seq<seq<real>>

    /** The shape the constructor gives the tables: one entry per boundary
        point in each, and NumNbs neighbours and weights per point. */
    ghost predicate Valid()
      reads this
    {
      |anglesPrim| == |angles| && |nbs| == |angles| && |weights| == |angles| &&
      (forall i :: 0 <= i < |nbs| ==> |nbs[i]| == NumNbs) &&
      (forall i :: 0 <= i < |weights| ==> |weights[i]| == NumNbs)
    }

    /** The tables couple the boundary points `angles` to the complementary
        grid `g`: every point is transformed, its neighbours are the block
        enclosing its image, and its weights are the area weights of its
        image in that block. */
    ghost predicate Coupled(g: Grid, trig: Trig)
      reads this
      requires Valid()
    {
      g.dTheta * g.dPhi != 0.0 &&
      forall i :: 0 <= i < |angles| ==>
        Transformable(trig, angles[i]) &&
        anglesPrim[i] == Transformed(trig, angles[i]) &&
        nbs[i] == Neighbours(g, anglesPrim[i]) &&
        weights[i] == AreaWeights(g, anglesPrim[i], nbs[i][0])
    }

    /** Every neighbour of every boundary point is an index into `f`. */
    ghost predicate NeighboursIn(f: seq<seq<real>>)
      reads this
      requires Valid()
    {
      forall i, j :: 0 <= i < |nbs| && 0 <= j < NumNbs ==> InField(nbs[i][j], f)
    }

    /** Builds the coupler for the boundary points (theta[i], phi[i]),
        i < |theta|, against the complementary grid `oppoGrids`. `phi` is
        read at every index of `theta` and must be at least as long; no
        equal-length check is made. */
    constructor (theta: seq<real>, phi: seq<real>, oppoGrids: Grid, trig: Trig)
      requires |phi| >= |theta|
      requires forall i :: 0 <= i < |theta| ==> Transformable(trig, Coord(theta[i], phi[i]))
      requires oppoGrids.dTheta * oppoGrids.dPhi != 0.0
      ensures Valid() && Coupled(oppoGrids, trig)
      ensures |angles| == |theta|
      ensures forall i :: 0 <= i < |theta| ==> angles[i] == Coord(theta[i], phi[i])
    {
      var n := |theta|;
      angles := seq(n, _ => Coord(0.0, 0.0));
      anglesPrim := seq(n, _ => Coord(0.0, 0.0));
      nbs := seq(n, _ => seq(NumNbs, _ => Cell(0, 0)));
      weights := seq(n, _ => seq(NumNbs, _ => 0.0));
      new;
      var i := 0;
      while i < n
        invariant 0 <= i <= n && Valid() && |angles| == n
        invariant forall k :: 0 <= k < i ==> angles[k] == Coord(theta[k], phi[k])
      {
        angles := angles[i := Coord(theta[i], phi[i])];
        i := i + 1;
      }
      CoordiTrans(trig);
      FindNbs(oppoGrids);
      CalWts(oppoGrids);
    }

    /** Sets every anglesPrim[i] to the image of angles[i] in the
        complementary frame. */
    method CoordiTrans(trig: Trig)
      requires Valid()
      requires forall i :: 0 <= i < |angles| ==> Transformable(trig, angles[i])
      modifies this`anglesPrim
      ensures Valid()
      ensures forall i :: 0 <= i < |angles| ==> anglesPrim[i] == Transformed(trig, angles[i])
    {
      var i := 0;
      while i < |angles|
        invariant 0 <= i <= |angles| && Valid()
        invariant forall k :: 0 <= k < i ==> anglesPrim[k] == Transformed(trig, angles[k])
      {
        var thetaPrim := ThetaPrim(trig, angles[i]);
        var s := trig.sin(thetaPrim);
        var r := Numerator(trig, angles[i]);
        var phiPrim: real;
        // A zero s with a non-zero r makes the quotient infinite.
        if s == 0.0 || Abs(r / s) >= 1.0 {
          phiPrim := 0.0;
        } else if trig.cos(angles[i].theta) / s > 0.0 {
          phiPrim := trig.acos(-r / s);
        } else {
          phiPrim := -trig.acos(-r / s);
        }
        anglesPrim := anglesPrim[i := Coord(thetaPrim, phiPrim)];
        i := i + 1;
      }
    }

    /** Sets every nbs[i] to the 2x2 block of the grid's cells at the
        indices the grid gives for anglesPrim[i]. */
    method FindNbs(grids: Grid)
      requires Valid()
      modifies this`nbs
      ensures Valid()
      ensures forall i :: 0 <= i < |anglesPrim| ==> nbs[i] == Neighbours(grids, anglesPrim[i])
    {
      var i := 0;
      while i < |anglesPrim|
        invariant 0 <= i <= |anglesPrim| && Valid()
        invariant forall k :: 0 <= k < i ==> nbs[k] == Neighbours(grids, anglesPrim[k])
      {
        var rowID := grids.thetaToIndex(anglesPrim[i].theta);
        var colID := grids.phiToIndex(anglesPrim[i].phi);
        nbs := nbs[i := nbs[i][0 := Cell(rowID, colID)]
                             [1 := Cell(rowID, colID + 1)]
                             [2 := Cell(rowID + 1, colID)]
                             [3 := Cell(rowID + 1, colID + 1)]];
        i := i + 1;
      }
    }

    /** Sets every weights[i] to the area weights of anglesPrim[i] in the
        cell whose lower corner is nbs[i][0]. */
    method CalWts(grids: Grid)
      requires Valid()
      requires grids.dTheta * grids.dPhi != 0.0
      modifies this`weights
      ensures Valid()
      ensures forall i :: 0 <= i < |weights| ==>
        weights[i] == AreaWeights(grids, anglesPrim[i], nbs[i][0])
    {
      var i := 0;
      while i < |weights|
        invariant 0 <= i <= |weights| && Valid()
        invariant forall k :: 0 <= k < i ==>
          weights[k] == AreaWeights(grids, anglesPrim[k], nbs[k][0])
      {
        var thetaPrim, phiPrim := anglesPrim[i].theta, anglesPrim[i].phi;
        var dThetaPrim, dPhiPrim := grids.dTheta, grids.dPhi;
        var thetaPrim0 := grids.theta(nbs[i][0].row);
        var phiPrim0 := grids.phi(nbs[i][0].col);
        var s0 := dThetaPrim * dPhiPrim;
        // The four side lengths of the sub-rectangles around the point.
        var tHi, pHi := thetaPrim0 + dThetaPrim - thetaPrim, phiPrim0 + dPhiPrim - phiPrim;
        var tLo, pLo := thetaPrim - thetaPrim0, phiPrim - phiPrim0;
        ghost var w := CellAreas(tLo, pLo, dThetaPrim, dPhiPrim);
        CellAreasFromSides(tLo, pLo, dThetaPrim, dPhiPrim, tHi, pHi);
        weights := weights[i := weights[i]
          [0 := tHi * pHi / s0]
          [1 := tHi * pLo / s0]
          [2 := tLo * pHi / s0]
          [3 := tLo * pLo / s0]];
        assert weights[i] == w;
        i := i + 1;
      }
    }

    /** Fills f0 with one value per boundary point: the weighted sum of `f`
        over the point's neighbours. The tables and `f` are left as they
        are. */
    method Interpolation(f0: array<real>, f: seq<seq<real>>)
      requires Valid()
      requires f0.Length == |weights|
      requires NeighboursIn(f)
      modifies f0
      ensures forall i :: 0 <= i < f0.Length ==> f0[i] == WeightedSum(weights[i], nbs[i], f, NumNbs)
    {
      var i := 0;
      while i < f0.Length
        invariant 0 <= i <= f0.Length
        invariant forall k :: 0 <= k < i ==> f0[k] == WeightedSum(weights[k], nbs[k], f, NumNbs)
      {
        f0[i] := 0.0;
        var j := 0;
        while j < NumNbs
          invariant 0 <= j <= NumNbs
          invariant f0[i] == WeightedSum(weights[i], nbs[i], f, j)
          invariant forall k :: 0 <= k < i ==> f0[k] == WeightedSum(weights[k], nbs[k], f, NumNbs)
        {
          f0[i] := f0[i] + weights[i][j] * f[nbs[i][j].row][nbs[i][j].col];
          j := j + 1;
        }
        i := i + 1;
      }
    }
  }

  /** In a coupled table, the neighbours of point i are the block whose
      lower corner is nbs[i][0]. */
  lemma NeighboursAreBlock(b: GhostBC2D, g: Grid, trig: Trig, i: int)
    requires b.Valid() && b.Coupled(g, trig) && 0 <= i < |b.nbs|
    ensures b.nbs[i] == Block(b.nbs[i][0].row, b.nbs[i][0].col)
  {
    assert b.nbs[i] == Neighbours(g, b.anglesPrim[i]);
  }

  /** Every point's weights sum to 1; when the grid has positive spacings
      and every image lies in the cell of its first neighbour, every weight
      lies in [0, 1]. */
  lemma CoupledWeights(b: GhostBC2D, g: Grid, trig: Trig)
    requires b.Valid() && b.Coupled(g, trig)
    ensures forall i :: 0 <= i < |b.weights| ==> Total(b.weights[i], NumNbs) == 1.0
    ensures (0.0 < g.dTheta && 0.0 < g.dPhi &&
      forall i :: 0 <= i < |b.anglesPrim| ==> InCell(g, b.anglesPrim[i], b.nbs[i][0])) ==>
      forall i, j :: 0 <= i < |b.weights| && 0 <= j < NumNbs ==> 0.0 <= b.weights[i][j] <= 1.0
  {
    forall i | 0 <= i < |b.weights|
      ensures Total(b.weights[i], NumNbs) == 1.0
    {
      WeightsSumToOne(g, b.anglesPrim[i], b.nbs[i][0]);
    }
    if 0.0 < g.dTheta && 0.0 < g.dPhi &&
      (forall i :: 0 <= i < |b.anglesPrim| ==> InCell(g, b.anglesPrim[i], b.nbs[i][0]))
    {
      forall i, j | 0 <= i < |b.weights| && 0 <= j < NumNbs
        ensures 0.0 <= b.weights[i][j] <= 1.0
      {
        WeightsInUnitInterval(g, b.anglesPrim[i], b.nbs[i][0]);
      }
    }
  }

  /** Interpolating a field that is the constant c at every neighbour of
      every boundary point gives c at every boundary point. */
  lemma InterpolationReproducesConstant(b: GhostBC2D, g: Grid, trig: Trig, f: seq<seq<real>>, c: real)
    requires b.Valid() && b.Coupled(g, trig)
    requires forall i, j :: 0 <= i < |b.nbs| && 0 <= j < NumNbs ==>
      InField(b.nbs[i][j], f) && At(f, b.nbs[i][j]) == c
    ensures forall i :: 0 <= i < |b.weights| ==> WeightedSum(b.weights[i], b.nbs[i], f, NumNbs) == c
  {
    forall i | 0 <= i < |b.weights|
      ensures WeightedSum(b.weights[i], b.nbs[i], f, NumNbs) == c
    {
      NeighboursAreBlock(b, g, trig, i);
      var nb := b.nbs[i];
      assert forall x :: x in nb ==> InField(x, f) && At(f, x) == c;
      ConstantFieldReproduced(g, b.anglesPrim[i], nb[0], f, c);
    }
  }

  /** Interpolating a field that is bilinear in the complementary grid's
      angles, on a grid uniform around every neighbour block, gives that
      bilinear function at every transformed boundary point. */
  lemma InterpolationExactForBilinear(b: GhostBC2D, g: Grid, trig: Trig, f: seq<seq<real>>,
                                     A: real, B: real, C: real, D: real)
    requires b.Valid() && b.Coupled(g, trig)
    requires forall i :: 0 <= i < |b.nbs| ==> UniformAt(g, b.nbs[i][0])
    requires forall i, j :: 0 <= i < |b.nbs| && 0 <= j < NumNbs ==>
      InField(b.nbs[i][j], f) &&
      At(f, b.nbs[i][j]) == Bilinear(A, B, C, D, g.theta(b.nbs[i][j].row), g.phi(b.nbs[i][j].col))
    ensures forall i :: 0 <= i < |b.weights| ==>
      WeightedSum(b.weights[i], b.nbs[i], f, NumNbs)
        == Bilinear(A, B, C, D, b.anglesPrim[i].theta, b.anglesPrim[i].phi)
  {
    forall i | 0 <= i < |b.weights|
      ensures WeightedSum(b.weights[i], b.nbs[i], f, NumNbs)
        == Bilinear(A, B, C, D, b.anglesPrim[i].theta, b.anglesPrim[i].phi)
    {
      NeighboursAreBlock(b, g, trig, i);
      var nb := b.nbs[i];
      assert forall x :: x in nb ==>
        InField(x, f) && At(f, x) == Bilinear(A, B, C, D, g.theta(x.row), g.phi(x.col));
      BilinearFieldReproduced(g, b.anglesPrim[i], nb[0], f, A, B, C, D);
    }
  }
}
