/** The Yin/Yang coordinate transform of `GhostBC2D::coordiTrans`, one
    boundary point at a time: from (theta, phi) in one patch's frame to
    (theta', phi') in the complementary patch's frame.

    The trigonometry is uninterpreted, so what is proved here is the branch
    structure of the transform (which branch is taken, that `acos` is only
    ever asked about an argument strictly inside (-1, 1), the sign and range
    of the result), not its numerical values. */
module Transform {
  import opened External

  /** theta' = acos(sin(theta) * sin(phi)). */
  function ThetaPrim(trig: Trig, c: Coord): real {
    trig.acos(trig.sin(c.theta) * trig.sin(c.phi))
  }

  /** r = sin(theta) * cos(phi), the numerator of the guard's quotient. */
  function Numerator(trig: Trig, c: Coord): real {
    trig.sin(c.theta) * trig.cos(c.phi)
  }

  /** sin(theta'), the denominator of every quotient of the transform. */
  function Denominator(trig: Trig, c: Coord): real {
    trig.sin(ThetaPrim(trig, c))
  }

  /** The source divides by sin(theta') in IEEE arithmetic. With a zero
      denominator and a non-zero numerator the quotient is infinite, which
      the guard below catches. With both zero it is NaN, which the source
      would hand to `acos`; such a point has no real image and is excluded. */
  predicate Transformable(trig: Trig, c: Coord) {
    Denominator(trig, c) != 0.0 || Numerator(trig, c) != 0.0
  }

  /** The snap-to-zero guard `|r / sin(theta')| >= 1`: an infinite quotient
      (zero denominator) always satisfies it; otherwise it holds exactly when
      the quotient lies outside the open interval (-1, 1). */
  predicate Guard(trig: Trig, c: Coord)
    ensures Denominator(trig, c) == 0.0 ==> Guard(trig, c)
    ensures Denominator(trig, c) != 0.0 ==>
      (Guard(trig, c) <==>
        Numerator(trig, c) / Denominator(trig, c) <= -1.0 ||
        1.0 <= Numerator(trig, c) / Denominator(trig, c))
  {
    var s := Denominator(trig, c);
    s == 0.0 || Abs(Numerator(trig, c) / s) >= 1.0
  }

  /** The image of `c` in the complementary frame: theta' from `ThetaPrim`,
      and phi' either 0 (the guard) or plus or minus `acos` of
      -r / sin(theta'). */
  function Transformed(trig: Trig, c: Coord): (r: Coord)
    requires Transformable(trig, c)
    ensures r.theta == ThetaPrim(trig, c)
    ensures Guard(trig, c) ==> r.phi == 0.0
    ensures !Guard(trig, c) ==>
      var q := -Numerator(trig, c) / Denominator(trig, c);
      r.phi == trig.acos(q) || r.phi == -trig.acos(q)
  {
    var s := Denominator(trig, c);
    var r := Numerator(trig, c);
    var phiPrim :=
      if Guard(trig, c) then 0.0
      else if trig.cos(c.theta) / s > 0.0 then trig.acos(-r / s)
      else -trig.acos(-r / s);
    Coord(ThetaPrim(trig, c), phiPrim)
  }

  /** Whenever the guard lets a point through, the denominator is non-zero
      and `acos` is applied to an argument strictly inside (-1, 1); at the
      threshold |r / sin(theta')| == 1 itself the result is exactly 0. */
  lemma AcosArgumentInDomain(trig: Trig, c: Coord)
    requires Transformable(trig, c)
    ensures Guard(trig, c) ==> Transformed(trig, c).phi == 0.0
    ensures !Guard(trig, c) ==>
      Denominator(trig, c) != 0.0 &&
      -1.0 < -Numerator(trig, c) / Denominator(trig, c) < 1.0
  {
    if !Guard(trig, c) {
      var s, r := Denominator(trig, c), Numerator(trig, c);
      assert Abs(r / s) < 1.0;
      assert -r / s == -(r / s);
    }
  }

  /** With a library `acos` that is positive on (-1, 1), the sign of phi'
      says which branch was taken: 0 exactly when the guard holds, positive
      exactly when cos(theta) / sin(theta') > 0, and negative otherwise,
      which includes cos(theta) == 0. */
  lemma PhiSignFollowsBranch(trig: Trig, c: Coord)
    requires Transformable(trig, c)
    requires forall x :: -1.0 < x < 1.0 ==> trig.acos(x) > 0.0
    ensures Transformed(trig, c).phi == 0.0 <==> Guard(trig, c)
    ensures Transformed(trig, c).phi > 0.0 <==>
      !Guard(trig, c) && trig.cos(c.theta) / Denominator(trig, c) > 0.0
    ensures Transformed(trig, c).phi < 0.0 <==>
      !Guard(trig, c) && trig.cos(c.theta) / Denominator(trig, c) <= 0.0
  {
    AcosArgumentInDomain(trig, c);
    if !Guard(trig, c) {
      var s, r := Denominator(trig, c), Numerator(trig, c);
      assert trig.acos(-r / s) > 0.0;
    }
  }

  lemma ProductOfUnitBounded(a: real, b: real)
    requires -1.0 <= a <= 1.0 && -1.0 <= b <= 1.0
    ensures -1.0 <= a * b <= 1.0
  {
    if a >= 0.0 {
      if b >= 0.0 { assert a * b <= a * 1.0; } else { assert a * b >= a * -1.0; }
    } else {
      if b >= 0.0 { assert a * b >= -b; } else { assert a * b <= -b; }
    }
  }

  /** With library ranges for `sin` and `acos`, the image lies in the
      complementary grid's angular domain: theta' in [0, pi] and phi' in
      [-pi, pi]. */
  lemma TransformedInDomain(trig: Trig, c: Coord, pi: real)
    requires Transformable(trig, c)
    requires forall x :: -1.0 <= trig.sin(x) <= 1.0
    requires forall x :: -1.0 <= x <= 1.0 ==> 0.0 <= trig.acos(x) <= pi
    ensures 0.0 <= Transformed(trig, c).theta <= pi
    ensures -pi <= Transformed(trig, c).phi <= pi
  {
    ProductOfUnitBounded(trig.sin(c.theta), trig.sin(c.phi));
    assert 0.0 <= pi by {
      assert 0.0 <= trig.acos(0.0) <= pi;
    }
    AcosArgumentInDomain(trig, c);
  }

  /** The point theta = pi/2, phi = 0 (given through the values the library
      returns for those angles): theta' = acos(0) = pi/2 and r = 1, so
      |r / sin(theta')| is exactly 1 and the guard snaps phi' to 0. The
      cos(theta) / sin(theta') test, which would select -acos(-1) for an
      exact cos(pi/2) = 0, is never reached, so no value of cos(halfPi) is
      assumed. */
  lemma EquatorPointSnapsToZero(trig: Trig, halfPi: real)
    requires trig.sin(halfPi) == 1.0
    requires trig.sin(0.0) == 0.0 && trig.cos(0.0) == 1.0
    requires trig.acos(0.0) == halfPi
    ensures Transformable(trig, Coord(halfPi, 0.0))
    ensures Guard(trig, Coord(halfPi, 0.0))
    ensures Transformed(trig, Coord(halfPi, 0.0)) == Coord(halfPi, 0.0)
  {
    var c := Coord(halfPi, 0.0);
    assert ThetaPrim(trig, c) == halfPi;
    assert Denominator(trig, c) == 1.0 && Numerator(trig, c) == 1.0;
  }
}
