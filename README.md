# Yin/Yang ghost-boundary coupler, modelled in Dafny

This project models `GhostBC2D`, the ghost-cell boundary condition that couples
two overlapping, rotated spherical patches (the Yin and Yang grids) of a
phase-field simulation on a sphere. A `GhostBC2D` serves one patch. It is
built once from that patch's boundary points and the complementary patch's
grid, and it holds four tables with one entry per boundary point:

- `angles`: the point (theta, phi) in its own frame;
- `anglesPrim`: the same point (theta', phi') in the complementary frame
  (`coordiTrans`);
- `nbs`: the 2x2 block of complementary cells around (theta', phi')
  (`findNbs`);
- `weights`: the bilinear area weight of each of those four cells
  (`calWts`).

After construction, `interpolation` fills a caller-owned buffer with
`f0[i] = sum over j < 4 of weights[i][j] * f[nbs[i][j]]` for a field `f` of
the complementary patch.

Files:

- `external.dfy` (module `External`): cells, angular coordinates, and the
  collaborators the coupler only queries. The C library's `sin`, `cos` and
  `acos` form a record `Trig` of function values. The grid provider
  `NormalGrids2D` forms a record `Grid` holding `thetaToIndex`, `phiToIndex`,
  `theta`, `phi` and the spacings `dTheta`, `dPhi`. Every property below
  holds for any functions that meet the stated hypotheses.
- `transform.dfy` (module `Transform`): the per-point coordinate transform
  and its branch structure.
- `stencil.dfy` (module `Stencil`): the neighbour block, the area weights,
  the weighted sum, and the interpolation properties (sum to one, range,
  corners, constant and bilinear fields reproduced).
- `ghost_bc2d.dfy` (module `GhostBoundary`): the class `GhostBC2D`. Its
  table fields are sequences that the construction steps rewrite entry by
  entry. The output buffer of `Interpolation` is an array written in place.
  The lemmas at the end state the interpolation properties for a whole
  constructed coupler.

`double` is modelled as `real`, so the weight identities hold exactly.
Division by zero is modelled as IEEE arithmetic gives it where the code
relies on that. In `coordiTrans`, when sin(theta') is 0 and
r = sin(theta)·cos(phi) is not, the quotient is infinite: the guard holds
and phi' is 0. The model keeps this branch.

Behaviour of the code that the model keeps on purpose:

- The guard `|r / sin(theta')| >= 1` comes before the `cos(theta) / sin(theta') > 0` test.
  At theta = pi/2, phi = 0 the quotient is exactly 1, so phi' is 0
  (`Transform.EquatorPointSnapsToZero`). Testing cos(theta)/sin(theta')
  before the guard would give -acos(-1) = -pi here instead. The code gives
  0, and the model follows the code. The Yin-to-Yang rotation
  itself would place that point at phi' = ±pi. The snap affects only points
  with theta exactly pi/2 and cos(phi) > 0, which are not on a Yin/Yang
  patch edge.
- The constructor reads `phi[i]` for every index of `theta`, with no
  equal-length check. The model requires only `|phi| >= |theta|` of the
  two lengths. Its other two preconditions are numerical: every point is
  `Transformable`, and the complementary grid's cell area dTHETA·dPHI is
  non-zero (see "## Left out").

## Model

| member | source | states |
|---|---|---|
| `GhostBoundary.GhostBC2D.constructor` | GhostBC2D.cpp:18-35 | needs `|phi| >= |theta|`, every point `Transformable` (no 0/0 quotient) and a non-zero cell area dTHETA·dPHI; gives N = `|theta|` entries in every table, 4 neighbours and 4 weights per entry, `angles[i] == (theta[i], phi[i])`; `anglesPrim`, `nbs` and `weights` are the transform, neighbour block and area weights of each point (`Coupled`) |
| `GhostBoundary.GhostBC2D.CoordiTrans` | GhostBC2D.cpp:39-53 | sets each `anglesPrim[i]` to the image of `angles[i]` alone, through the three-way branch; changes no other table |
| `GhostBoundary.GhostBC2D.FindNbs` | GhostBC2D.cpp:58-71 | sets each `nbs[i]` to exactly `[(r,c), (r,c+1), (r+1,c), (r+1,c+1)]` with `r = thetaToIndex(theta'_i)` and `c = phiToIndex(phi'_i)`; changes no other table |
| `GhostBoundary.GhostBC2D.CalWts` | GhostBC2D.cpp:75-91 | sets each `weights[i]` to the four area weights of `anglesPrim[i]` in the cell whose lower corner is `nbs[i][0]`; changes no other table |
| `GhostBoundary.GhostBC2D.Interpolation` | GhostBC2D.cpp:94-104 | needs `f0.Length == |weights|` and every neighbour inside `f`; afterwards `f0[i]` is the sum over j < 4 of `weights[i][j] * f[nbs[i][j]]` for every i; only `f0` is written |
| `GhostBoundary.NeighboursAreBlock` | GhostBC2D.cpp:63-69 | in a constructed coupler, `nbs[i]` is the 2x2 block whose lower corner is `nbs[i][0]`, the corner `calWts` measures from |
| `GhostBoundary.CoupledWeights` | GhostBC2D.cpp:76-90 | in a constructed coupler, every point's four weights sum to 1; with positive spacings and every image inside its cell, every weight lies in [0, 1] |
| `GhostBoundary.InterpolationReproducesConstant` | GhostBC2D.cpp:94-103 | in a constructed coupler, a field equal to c at every neighbour interpolates to c at every boundary point |
| `GhostBoundary.InterpolationExactForBilinear` | GhostBC2D.cpp:94-103 | in a constructed coupler on a locally uniform grid, a field bilinear in the grid angles interpolates to that bilinear function at every transformed point |
| `Transform.Guard` | GhostBC2D.cpp:46 | holds when sin(theta') is 0, where the quotient is infinite; otherwise holds exactly when r / sin(theta') is <= -1 or >= 1, that is, outside the open interval (-1, 1) |
| `Transform.Transformed` | GhostBC2D.cpp:44-51 | the image of one point: theta' is `acos(sin(theta)·sin(phi))`; phi' is 0 when the guard holds, and otherwise +acos or -acos of -r / sin(theta'); which sign is taken is pinned down by `PhiSignFollowsBranch` |
| `Transform.AcosArgumentInDomain` | GhostBC2D.cpp:46-48 | when the guard holds, phi' is 0, also at the threshold itself; when it does not, sin(theta') is non-zero and `acos` gets an argument strictly inside (-1, 1) |
| `Transform.PhiSignFollowsBranch` | GhostBC2D.cpp:46-48 | if `acos` is positive on (-1, 1): phi' == 0 iff the guard holds; phi' > 0 iff the guard fails and cos(theta)/sin(theta') > 0; phi' < 0 iff the guard fails and that quotient is <= 0, which includes 0 |
| `Transform.TransformedInDomain` | GhostBC2D.cpp:44-51 | with library ranges for `sin` and `acos`, theta' lies in [0, pi] and phi' in [-pi, pi] |
| `Transform.EquatorPointSnapsToZero` | GhostBC2D.cpp:44-51 | at theta = pi/2, phi = 0 the guard holds with quotient exactly 1, and the image is (pi/2, 0) |
| `Stencil.Block` | GhostBC2D.cpp:66-69 | the four neighbours are distinct, lower corner first, and are exactly the cells of the 2x2 block at (r, c) |
| `Stencil.Neighbours` | GhostBC2D.cpp:63-69 | four neighbours, the first at the cell indices the grid gives for (theta', phi') |
| `Stencil.CellAreas` | GhostBC2D.cpp:83-89 | four weights for a point at offset (x, y) from the lower corner of a dt-by-dp cell; each is the area of the sub-rectangle diagonally opposite its neighbour, divided by s0 = dt·dp; `CellAreasAreBilinear` equates them with the reference weights |
| `Stencil.AreaWeights` | GhostBC2D.cpp:77-89 | four weights: `CellAreas` at the offset of (theta', phi') from the grid angles of the lower-corner neighbour, using the grid spacings dTHETA and dPHI |
| `Stencil.CellAreasAreBilinear` | GhostBC2D.cpp:83-89 | the area formulas equal the tensor-product bilinear weights [(1-a)(1-b), (1-a)b, a(1-b), ab] at the fractional position (a, b) of the point in its cell |
| `Stencil.WeightsSumToOne` | GhostBC2D.cpp:83-89 | the four weights sum to 1 whenever dTHETA·dPHI is non-zero, wherever the point lies |
| `Stencil.WeightsInUnitInterval` | GhostBC2D.cpp:81-89 | with positive spacings and the point inside [theta0, theta0+dTheta] x [phi0, phi0+dPhi], every weight lies in [0, 1] |
| `Stencil.WeightsAtCorners` | GhostBC2D.cpp:81-89 | at each corner of the cell, that corner's weight is 1 and the others are 0; at (theta0, phi0) the weights are [1, 0, 0, 0] |
| `Stencil.ConstantWeightedSum` | GhostBC2D.cpp:100-102 | the accumulated sum over a field equal to c at the neighbours is c times the sum of the weights |
| `Stencil.WeightedSum` | GhostBC2D.cpp:98-102 | the value of `f0[i]` after j rounds of the inner loop: it starts at 0 and adds `w[j] * f[nb[j]]` for each j < k in order; `Interpolation` is proved to leave exactly this value for k = 4 |
| `Stencil.WeightedSumNonNegative` | GhostBC2D.cpp:98-102 | with non-negative weights and a field that is non-negative at the neighbours, the accumulated sum is non-negative |
| `Stencil.ConstantFieldReproduced` | GhostBC2D.cpp:86-101 | with `calWts`'s weights, a field equal to c at the four neighbours interpolates to exactly c |
| `Stencil.BilinearFieldReproduced` | GhostBC2D.cpp:86-101 | on a grid uniform across the cell, a field A + B·theta + C·phi + D·theta·phi at the neighbours interpolates to its value at (theta', phi') |

## Left out

- Trigonometry: `sin`, `cos` and `acos` are uninterpreted function values. The model proves the branch structure of `coordiTrans`, not its numerical values, and not that the Yin-to-Yang transform is its own inverse.
- Floating point: `double` is `real`. Rounding, overflow and the round-off that the guard protects against are not modelled. The weight identities hold exactly over the reals.
- GhostBoundary.GhostBC2D.constructor: a point where both sin(theta') and sin(theta)·cos(phi) are 0 is excluded by a precondition (`Transformable`). There the code divides 0 by 0 and passes NaN to `acos`, and NaN is not a real.
- GhostBoundary.GhostBC2D.constructor: the grid's cell area dTHETA·dPHI must be non-zero. A zero area makes `calWts` divide by 0, producing infinite or NaN weights, which reals cannot represent.
- `NormalGrids2D` is not part of this model. Its queries are function values and its spacings are numbers. Whether `thetaToIndex` and `phiToIndex` return a cell that encloses the point, or indices inside the field, is not checked by the code. The model states both as hypotheses: `InCell` for the weight range, and `NeighboursIn` for `Interpolation`.
- `f0` is assumed not to be a row of `f`. The source takes both by reference, so a caller could pass one of `f`'s rows as `f0`. Writes to `f0` would then change values that later iterations read from `f`. The model takes `f` as a sequence value and an `array` for `f0`, so it does not capture this aliasing.
- `int` overflow of `rowID + 1` and `colID + 1` is not modelled; indices are unbounded integers.
- The `assert` on the output size in `interpolation` is a precondition of `Interpolation`. A failing C `assert` aborts the program, so callers must meet it.
- `Center.h` is not part of this model. It holds only declarations and three trivial accessors (`initPsi`, `psiAtCenter`, `muAtCenter`). The bodies of `interpPsi`, `interpMu`, `calcMu_dw`, `calcMu_sd` and `updatePsi` are in a file that is not available.
- `util_funcs.h` is not part of this model. It declares file-printing routines and max/min/average helpers without bodies.
