/**
 demo/lab_tile_preview.js: the bilinear map of a tile and its inverse by Newton iteration. Numbers are
 reals, so what is proved is the method and not its rounding.
 */
module TileProjection {

  datatype Point = Point(lng: real, lat: real)

  datatype Corners = Corners(nw: Point, sw: Point, se: Point, ne: Point)

  /** One coordinate of the map, from the four corner values. */
  function Blend(u: real, v: real, nw: real, sw: real, se: real, ne: real): real {
    (1.0 - u) * (1.0 - v) * nw + (1.0 - u) * v * sw + u * v * se + u * (1.0 - v) * ne
  }

  function BilinearForward(u: real, v: real, c: Corners): Point {
    Point(Blend(u, v, c.nw.lng, c.sw.lng, c.se.lng, c.ne.lng), Blend(u, v, c.nw.lat, c.sw.lat, c.se.lat, c.ne.lat))
  }

  /** The map is fixed by where the corners of the unit square go, each to its corner of the tile. */
  lemma CornersAreMapped(c: Corners)
    ensures BilinearForward(0.0, 0.0, c) == c.nw
    ensures BilinearForward(0.0, 1.0, c) == c.sw
    ensures BilinearForward(1.0, 1.0, c) == c.se
    ensures BilinearForward(1.0, 0.0, c) == c.ne
  {
  }

  /** The derivatives of one coordinate. */
  function AlongU(v: real, nw: real, sw: real, se: real, ne: real): real {
    (1.0 - v) * (ne - nw) + v * (se - sw)
  }

  function AlongV(u: real, nw: real, sw: real, se: real, ne: real): real {
    (1.0 - u) * (sw - nw) + u * (se - ne)
  }

  /** How far a quadrilateral is from a parallelogram. */
  function Twist(c: Corners): Point {
    Point(c.nw.lng - c.sw.lng + c.se.lng - c.ne.lng, c.nw.lat - c.sw.lat + c.se.lat - c.ne.lat)
  }

  lemma BlendShifted(u: real, v: real, du: real, dv: real, nw: real, sw: real, se: real, ne: real)
    ensures Blend(u + du, v + dv, nw, sw, se, ne)
         == Blend(u, v, nw, sw, se, ne) + du * AlongU(v, nw, sw, se, ne) + dv * AlongV(u, nw, sw, se, ne)
          + du * dv * (nw - sw + se - ne)
  {
  }

  /** A forward difference of a map that is linear in each variable is its derivative, for every step. */
  lemma ForwardDifferenceIsExact(u: real, v: real, h: real, nw: real, sw: real, se: real, ne: real)
    requires h != 0.0
    ensures (Blend(u + h, v, nw, sw, se, ne) - Blend(u, v, nw, sw, se, ne)) / h == AlongU(v, nw, sw, se, ne)
    ensures (Blend(u, v + h, nw, sw, se, ne) - Blend(u, v, nw, sw, se, ne)) / h == AlongV(u, nw, sw, se, ne)
  {
    BlendShifted(u, v, h, 0.0, nw, sw, se, ne);
    BlendShifted(u, v, 0.0, h, nw, sw, se, ne);
    Cancel(AlongU(v, nw, sw, se, ne), h);
    Cancel(AlongV(u, nw, sw, se, ne), h);
  }

  lemma Cancel(x: real, h: real)
    requires h != 0.0
    ensures h * x / h == x
  {
  }

  /** Cramer's rule as the step computes it. */
  lemma StepSolves(a: real, b: real, c: real, d: real, ex: real, ey: real)
    requires a * d - b * c != 0.0
    ensures var det := a * d - b * c;
      var du, dv := (d * ex - b * ey) / det, (-c * ex + a * ey) / det;
      a * du + b * dv == ex && c * du + d * dv == ey
  {
    var det := a * d - b * c;
    var du, dv := (d * ex - b * ey) / det, (-c * ex + a * ey) / det;
    assert du * det == d * ex - b * ey;
    assert dv * det == -c * ex + a * ey;
    assert (a * du + b * dv) * det == a * (du * det) + b * (dv * det);
    assert a * (d * ex - b * ey) + b * (-c * ex + a * ey) == det * ex;
    assert (c * du + d * dv) * det == c * (du * det) + d * (dv * det);
    assert c * (d * ex - b * ey) + d * (-c * ex + a * ey) == det * ey;
    CancelFactor(a * du + b * dv, ex, det);
    CancelFactor(c * du + d * dv, ey, det);
  }

  lemma CancelFactor(x: real, y: real, det: real)
    requires det != 0.0 && x * det == det * y
    ensures x == y
  {
  }

  // ---------------------------------------------------------------------------
  // One Newton step
  // ---------------------------------------------------------------------------

  const EPS := 0.000000001
  const MIN_DET := 0.000000000000001
  const H := 0.00001

  function Abs(x: real): real {
    if x < 0.0 then -x else x
  }

  datatype Jacobian = Jacobian(dLngdU: real, dLngdV: real, dLatdU: real, dLatdV: real)

  function JacobianAt(u: real, v: real, c: Corners): Jacobian {
    Jacobian(AlongU(v, c.nw.lng, c.sw.lng, c.se.lng, c.ne.lng), AlongV(u, c.nw.lng, c.sw.lng, c.se.lng, c.ne.lng),
             AlongU(v, c.nw.lat, c.sw.lat, c.se.lat, c.ne.lat), AlongV(u, c.nw.lat, c.sw.lat, c.se.lat, c.ne.lat))
  }

  function Det(j: Jacobian): real {
    j.dLngdU * j.dLatdV - j.dLngdV * j.dLatdU
  }

  function ErrorAt(u: real, v: real, target: Point, c: Corners): Point {
    Point(BilinearForward(u, v, c).lng - target.lng, BilinearForward(u, v, c).lat - target.lat)
  }

  predicate Near(u: real, v: real, target: Point, c: Corners) {
    Abs(ErrorAt(u, v, target, c).lng) < EPS && Abs(ErrorAt(u, v, target, c).lat) < EPS
  }

  predicate Singular(u: real, v: real, c: Corners) {
    Abs(Det(JacobianAt(u, v, c))) < MIN_DET
  }

  function NumeratorU(j: Jacobian, e: Point): real {
    j.dLatdV * e.lng - j.dLngdV * e.lat
  }

  function NumeratorV(j: Jacobian, e: Point): real {
    -j.dLatdU * e.lng + j.dLngdU * e.lat
  }

  function DU(j: Jacobian, e: Point): real
    requires Det(j) != 0.0
  {
    NumeratorU(j, e) / Det(j)
  }

  function DV(j: Jacobian, e: Point): real
    requires Det(j) != 0.0
  {
    NumeratorV(j, e) / Det(j)
  }

  predicate Solves(j: Jacobian, du: real, dv: real, e: Point) {
    j.dLngdU * du + j.dLngdV * dv == e.lng && j.dLatdU * du + j.dLatdV * dv == e.lat
  }

  lemma StepSolvesJacobian(j: Jacobian, e: Point)
    requires Det(j) != 0.0
    ensures Solves(j, DU(j, e), DV(j, e), e)
  {
    StepSolves(j.dLngdU, j.dLngdV, j.dLatdU, j.dLatdV, e.lng, e.lat);
  }

  lemma LngAfterSolution(u: real, v: real, du: real, dv: real, target: Point, c: Corners)
    requires Solves(JacobianAt(u, v, c), du, dv, ErrorAt(u, v, target, c))
    ensures ErrorAt(u - du, v - dv, target, c).lng == du * dv * Twist(c).lng
  {
    hide Blend, AlongU, AlongV;
    CoordinateAfterStep(u, v, du, dv, c.nw.lng, c.sw.lng, c.se.lng, c.ne.lng, target.lng);
  }

  lemma LatAfterSolution(u: real, v: real, du: real, dv: real, target: Point, c: Corners)
    requires Solves(JacobianAt(u, v, c), du, dv, ErrorAt(u, v, target, c))
    ensures ErrorAt(u - du, v - dv, target, c).lat == du * dv * Twist(c).lat
  {
    hide Blend, AlongU, AlongV;
    CoordinateAfterStep(u, v, du, dv, c.nw.lat, c.sw.lat, c.se.lat, c.ne.lat, target.lat);
  }

  /** After a step the error is exactly du * dv times the twist: nothing of first order is left. */
  lemma ErrorAfterStep(u: real, v: real, target: Point, c: Corners)
    requires !Singular(u, v, c)
    ensures var j, e := JacobianAt(u, v, c), ErrorAt(u, v, target, c);
      ErrorAt(u - DU(j, e), v - DV(j, e), target, c)
      == Point(DU(j, e) * DV(j, e) * Twist(c).lng, DU(j, e) * DV(j, e) * Twist(c).lat)
  {
    hide Blend, AlongU, AlongV, DU, DV;
    var j, e := JacobianAt(u, v, c), ErrorAt(u, v, target, c);
    StepSolvesJacobian(j, e);
    LngAfterSolution(u, v, DU(j, e), DV(j, e), target, c);
    LatAfterSolution(u, v, DU(j, e), DV(j, e), target, c);
  }

  lemma CoordinateAfterStep(u: real, v: real, du: real, dv: real,
                            nw: real, sw: real, se: real, ne: real, target: real)
    requires AlongU(v, nw, sw, se, ne) * du + AlongV(u, nw, sw, se, ne) * dv == Blend(u, v, nw, sw, se, ne) - target
    ensures Blend(u - du, v - dv, nw, sw, se, ne) - target == du * dv * (nw - sw + se - ne)
  {
    BlendShifted(u, v, -du, -dv, nw, sw, se, ne);
    Negated(du, AlongU(v, nw, sw, se, ne));
    Negated(dv, AlongV(u, nw, sw, se, ne));
    assert -du * -dv == du * dv;
  }

  lemma Negated(x: real, y: real)
    ensures -x * y == -(y * x)
  {
  }

  lemma AbsOfProduct(x: real, y: real)
    ensures Abs(x * y) == Abs(x) * Abs(y)
  {
  }

  lemma TermBound(p: real, x: real, m: real)
    requires Abs(x) <= m
    ensures Abs(p * x) <= Abs(p) * m
  {
    AbsOfProduct(p, x);
    ProductMonotone(Abs(p), Abs(x), m);
  }

  /** |p x + q y| <= (|p| + |q|) m when neither |x| nor |y| exceeds m. */
  lemma CombinationBound(p: real, x: real, q: real, y: real, m: real, sum: real, weight: real)
    requires Abs(x) <= m && Abs(y) <= m
    requires sum == p * x + q * y && weight == Abs(p) + Abs(q)
    ensures Abs(sum) <= weight * m
  {
    hide Abs;
    TermBound(p, x, m);
    TermBound(q, y, m);
    SumBound(p * x, q * y, Abs(p) * m, Abs(q) * m);
    assert weight * m == Abs(p) * m + Abs(q) * m by { Distribute(Abs(p), Abs(q), m); }
  }

  lemma SumBound(a: real, b: real, x: real, y: real)
    requires Abs(a) <= x && Abs(b) <= y
    ensures Abs(a + b) <= x + y
  {
  }

  lemma Distribute(x: real, y: real, m: real)
    ensures (x + y) * m == x * m + y * m
  {
  }

  lemma ProductMonotone(k: real, x: real, y: real)
    requires k >= 0.0 && x <= y
    ensures k * x <= k * y
  {
  }

  lemma ProductBound(a: real, b: real, x: real, y: real)
    requires 0.0 <= a <= x && 0.0 <= b <= y
    ensures a * b <= x * y
  {
    ProductMonotone(a, b, y);
    ProductMonotone(y, a, x);
  }

  function WeightU(j: Jacobian): real {
    Abs(j.dLatdV) + Abs(j.dLngdV)
  }

  function WeightV(j: Jacobian): real {
    Abs(j.dLatdU) + Abs(j.dLngdU)
  }

  /**
   Quadratic convergence for any quadrilateral: when neither coordinate is off by more than m, a step leaves
   the twist times a factor p, and p is at most m squared times the weights of the Jacobian over its
   determinant squared.
   */
  lemma ErrorShrinksQuadratically(u: real, v: real, target: Point, c: Corners, m: real)
    requires !Singular(u, v, c)
    requires Abs(ErrorAt(u, v, target, c).lng) <= m && Abs(ErrorAt(u, v, target, c).lat) <= m
    ensures var j, e := JacobianAt(u, v, c), ErrorAt(u, v, target, c);
      var p := DU(j, e) * DV(j, e);
      && ErrorAt(u - DU(j, e), v - DV(j, e), target, c) == Point(p * Twist(c).lng, p * Twist(c).lat)
      && Abs(p) * (Det(j) * Det(j)) <= WeightU(j) * WeightV(j) * (m * m)
  {
    hide Blend, AlongU, AlongV, DU, DV, WeightU, WeightV, Det;
    ErrorAfterStep(u, v, target, c);
    StepBound(JacobianAt(u, v, c), ErrorAt(u, v, target, c), m);
  }

  lemma StepBound(j: Jacobian, e: Point, m: real)
    requires Det(j) != 0.0 && Abs(e.lng) <= m && Abs(e.lat) <= m
    ensures Abs(DU(j, e) * DV(j, e)) * (Det(j) * Det(j)) <= WeightU(j) * WeightV(j) * (m * m)
  {
    hide *;
    NumeratorSizes(j, e, m);
    StepsTimesDeterminant(j, e);
    NumeratorsBound(DU(j, e), DV(j, e), Det(j), NumeratorU(j, e), NumeratorV(j, e), WeightU(j), WeightV(j), m,
                    DU(j, e) * DV(j, e));
  }

  lemma NumeratorSizes(j: Jacobian, e: Point, m: real)
    requires Abs(e.lng) <= m && Abs(e.lat) <= m
    ensures Abs(NumeratorU(j, e)) <= WeightU(j) * m && Abs(NumeratorV(j, e)) <= WeightV(j) * m
  {
    hide Abs;
    SameSize(j.dLngdV);
    SameSize(j.dLatdU);
    assert j.dLatdV * e.lng - j.dLngdV * e.lat == j.dLatdV * e.lng + -j.dLngdV * e.lat;
    CombinationBound(j.dLatdV, e.lng, -j.dLngdV, e.lat, m, NumeratorU(j, e), WeightU(j));
    CombinationBound(-j.dLatdU, e.lng, j.dLngdU, e.lat, m, NumeratorV(j, e), WeightV(j));
  }

  lemma SameSize(x: real)
    ensures Abs(-x) == Abs(x)
  {
  }

  lemma StepsTimesDeterminant(j: Jacobian, e: Point)
    requires Det(j) != 0.0
    ensures DU(j, e) * Det(j) == NumeratorU(j, e) && DV(j, e) * Det(j) == NumeratorV(j, e)
  {
    hide Det, NumeratorU, NumeratorV;
    QuotientTimes(NumeratorU(j, e), Det(j));
    QuotientTimes(NumeratorV(j, e), Det(j));
  }

  lemma NumeratorsBound(du: real, dv: real, det: real, x: real, y: real, p: real, q: real, m: real,
                        steps: real)
    requires du * det == x && dv * det == y
    requires Abs(x) <= p * m && Abs(y) <= q * m
    requires steps == du * dv
    ensures Abs(steps) * (det * det) <= p * q * (m * m)
  {
    StepsTimesDet(du, dv, det, x, y);
    ProductBound(Abs(x), Abs(y), p * m, q * m);
    Regroup(p, q, m);
  }

  lemma Regroup(a: real, b: real, m: real)
    ensures (a * m) * (b * m) == a * b * (m * m)
  {
  }

  lemma StepsTimesDet(du: real, dv: real, det: real, x: real, y: real)
    requires du * det == x && dv * det == y
    ensures Abs(du * dv) * (det * det) == Abs(x) * Abs(y)
  {
    var steps, square := du * dv, det * det;
    assert steps * square == x * y;
    assert Abs(square) == square;
    hide Abs;
    AbsOfProduct(x, y);
    AbsOfProduct(steps, square);
  }

  lemma QuotientTimes(x: real, det: real)
    requires det != 0.0
    ensures x / det * det == x
  {
  }

  // ---------------------------------------------------------------------------
  // The loop
  // ---------------------------------------------------------------------------

  /** One Newton step from (u, v). */
  function StepFrom(u: real, v: real, target: Point, c: Corners): (real, real)
    requires !Singular(u, v, c)
  {
    var j, e := JacobianAt(u, v, c), ErrorAt(u, v, target, c);
    (u - DU(j, e), v - DV(j, e))
  }

  /** The point after at most n turns; a point that is near or singular is not left again. */
  function Iterate(target: Point, c: Corners, n: nat): (real, real) {
    if n == 0 then (0.5, 0.5)
    else
      var (u, v) := Iterate(target, c, n - 1);
      if Near(u, v, target, c) || Singular(u, v, c) then (u, v) else StepFrom(u, v, target, c)
  }

  lemma {:induction false} IterateStays(target: Point, c: Corners, m: nat, n: nat)
    requires m <= n
    requires var (u, v) := Iterate(target, c, m); Near(u, v, target, c) || Singular(u, v, c)
    ensures Iterate(target, c, n) == Iterate(target, c, m)
  {
    if m == n {
    } else {
      IterateStays(target, c, m, n - 1);
    }
  }

  method NumericalJacobian(u: real, v: real, f: Point, corners: Corners) returns (j: Jacobian)
    requires f == BilinearForward(u, v, corners)
    ensures j == JacobianAt(u, v, corners)
  {
    var fU, fV := BilinearForward(u + H, v, corners), BilinearForward(u, v + H, corners);
    ForwardDifferenceIsExact(u, v, H, corners.nw.lng, corners.sw.lng, corners.se.lng, corners.ne.lng);
    ForwardDifferenceIsExact(u, v, H, corners.nw.lat, corners.sw.lat, corners.se.lat, corners.ne.lat);
    j := Jacobian((fU.lng - f.lng) / H, (fV.lng - f.lng) / H, (fU.lat - f.lat) / H, (fV.lat - f.lat) / H);
  }

  lemma DetOf(j: Jacobian)
    ensures Det(j) == j.dLngdU * j.dLatdV - j.dLngdV * j.dLatdU
  {
  }

  lemma StepTaken(u: real, v: real, target: Point, c: Corners, j: Jacobian, det: real, du: real, dv: real)
    requires !Singular(u, v, c) && j == JacobianAt(u, v, c) && det == Det(j)
    requires var e := ErrorAt(u, v, target, c);
      && du == (j.dLatdV * e.lng - j.dLngdV * e.lat) / det
      && dv == (-j.dLatdU * e.lng + j.dLngdU * e.lat) / det
    ensures StepFrom(u, v, target, c) == (u - du, v - dv)
  {
    hide BilinearForward, JacobianAt, ErrorAt, Det, Singular, NumeratorU, NumeratorV;
    NumeratorsOf(j, ErrorAt(u, v, target, c));
  }

  lemma NumeratorsOf(j: Jacobian, e: Point)
    ensures NumeratorU(j, e) == j.dLatdV * e.lng - j.dLngdV * e.lat
    ensures NumeratorV(j, e) == -j.dLatdU * e.lng + j.dLngdU * e.lat
  {
  }

  /** The end of a turn: both unknowns by Cramer's rule. */
  method NewtonStep(u: real, v: real, errLng: real, errLat: real, j: Jacobian, det: real,
                    ghost target: Point, ghost corners: Corners)
      returns (u': real, v': real)
    requires !Singular(u, v, corners) && j == JacobianAt(u, v, corners) && det == Det(j) && det != 0.0
    requires ErrorAt(u, v, target, corners) == Point(errLng, errLat)
    ensures (u', v') == StepFrom(u, v, target, corners)
  {
    hide BilinearForward, JacobianAt, ErrorAt, Det, StepFrom, Singular;
    var du := (j.dLatdV * errLng - j.dLngdV * errLat) / det;
    var dv := (-j.dLatdU * errLng + j.dLngdU * errLat) / det;
    StepTaken(u, v, target, corners, j, det, du, dv);
    u', v' := u - du, v - dv;
  }

  /** projectToUV. */
  method ProjectToUV(lng: real, lat: real, corners: Corners) returns (u: real, v: real)
    ensures (u, v) == Iterate(Point(lng, lat), corners, 30)
  {
    hide BilinearForward, JacobianAt, Blend, Det, StepFrom, NumeratorU, NumeratorV;
    ghost var target := Point(lng, lat);
    u, v := 0.5, 0.5;
    for iter := 0 to 30
      invariant (u, v) == Iterate(target, corners, iter)
    {
      var f := BilinearForward(u, v, corners);
      var errLng, errLat := f.lng - lng, f.lat - lat;
      assert ErrorAt(u, v, target, corners) == Point(errLng, errLat);
      if Abs(errLng) < EPS && Abs(errLat) < EPS {
        IterateStays(target, corners, iter, 30);
        return;
      }
      var j := NumericalJacobian(u, v, f, corners);
      var det := j.dLngdU * j.dLatdV - j.dLngdV * j.dLatdU;
      assert det == Det(j) by { DetOf(j); }
      if Abs(det) < MIN_DET {
        IterateStays(target, corners, iter, 30);
        return;
      }
      u, v := NewtonStep(u, v, errLng, errLat, j, det, target, corners);
    }
  }

  predicate Parallelogram(c: Corners) {
    Twist(c) == Point(0.0, 0.0)
  }

  /** On a parallelogram the Jacobian is the same everywhere. */
  lemma ConstantJacobian(c: Corners, u: real, v: real, u': real, v': real)
    requires Parallelogram(c)
    ensures JacobianAt(u, v, c) == JacobianAt(u', v', c)
  {
    FlatAlong(u, v, u', v', c.nw.lng, c.sw.lng, c.se.lng, c.ne.lng);
    FlatAlong(u, v, u', v', c.nw.lat, c.sw.lat, c.se.lat, c.ne.lat);
  }

  lemma FlatAlong(u: real, v: real, u': real, v': real, nw: real, sw: real, se: real, ne: real)
    requires nw - sw + se - ne == 0.0
    ensures AlongU(v, nw, sw, se, ne) == AlongU(v', nw, sw, se, ne)
    ensures AlongV(u, nw, sw, se, ne) == AlongV(u', nw, sw, se, ne)
  {
    assert ne - nw == se - sw && sw - nw == se - ne;
    assert (1.0 - v) * (se - sw) + v * (se - sw) == se - sw;
    assert (1.0 - v') * (se - sw) + v' * (se - sw) == se - sw;
    assert (1.0 - u) * (se - ne) + u * (se - ne) == se - ne;
    assert (1.0 - u') * (se - ne) + u' * (se - ne) == se - ne;
  }

  /** A linear system with a determinant has one solution. */
  lemma OneSolution(a: real, b: real, c: real, d: real, x: real, y: real)
    requires a * d - b * c != 0.0 && a * x + b * y == 0.0 && c * x + d * y == 0.0
    ensures x == 0.0 && y == 0.0
  {
    assert d * (a * x + b * y) - b * (c * x + d * y) == (a * d - b * c) * x;
    assert a * (c * x + d * y) - c * (a * x + b * y) == (a * d - b * c) * y;
    ZeroFactor(a * d - b * c, x);
    ZeroFactor(a * d - b * c, y);
  }

  lemma ZeroFactor(k: real, x: real)
    requires k != 0.0 && k * x == 0.0
    ensures x == 0.0
  {
  }

  lemma ForwardIsInjective(c: Corners, u: real, v: real, u': real, v': real)
    requires Parallelogram(c) && !Singular(u, v, c)
    requires BilinearForward(u, v, c) == BilinearForward(u', v', c)
    ensures u == u' && v == v'
  {
    var j := JacobianAt(u, v, c);
    BlendShifted(u, v, u' - u, v' - v, c.nw.lng, c.sw.lng, c.se.lng, c.ne.lng);
    BlendShifted(u, v, u' - u, v' - v, c.nw.lat, c.sw.lat, c.se.lat, c.ne.lat);
    assert (u' - u) * (v' - v) * Twist(c).lng == 0.0 && (u' - u) * (v' - v) * Twist(c).lat == 0.0;
    OneSolution(j.dLngdU, j.dLngdV, j.dLatdU, j.dLatdV, u' - u, v' - v);
  }

  /** On a parallelogram one step lands on the target exactly, and the loop stops there. */
  lemma ParallelogramInverted(c: Corners, u: real, v: real)
    requires Parallelogram(c) && !Singular(0.5, 0.5, c)
    ensures var target := BilinearForward(u, v, c);
      Iterate(target, c, 30) == if Near(0.5, 0.5, target, c) then (0.5, 0.5) else (u, v)
  {
    var target := BilinearForward(u, v, c);
    if Near(0.5, 0.5, target, c) {
      IterateStays(target, c, 0, 30);
    } else {
      var (u1, v1) := Iterate(target, c, 1);
      ErrorAfterStep(0.5, 0.5, target, c);
      assert Iterate(target, c, 0) == (0.5, 0.5);
      assert ErrorAt(u1, v1, target, c) == Point(0.0, 0.0);
      ConstantJacobian(c, 0.5, 0.5, u1, v1);
      ForwardIsInjective(c, u1, v1, u, v);
      IterateStays(target, c, 1, 30);
    }
  }

  /** For any quadrilateral: the result maps to within EPS of the target, or the map is singular there, or
      all thirty turns were used up without coming near. */
  lemma {:induction false} HowTheLoopEnds(target: Point, c: Corners, n: nat)
    ensures var (u, v) := Iterate(target, c, n);
      || Near(u, v, target, c)
      || Singular(u, v, c)
      || forall m :: 0 <= m < n ==>
           var (x, y) := Iterate(target, c, m); !Near(x, y, target, c) && !Singular(x, y, c)
  {
    var (u, v) := Iterate(target, c, n);
    if !Near(u, v, target, c) && !Singular(u, v, c) {
      forall m | 0 <= m < n
        ensures var (x, y) := Iterate(target, c, m); !Near(x, y, target, c) && !Singular(x, y, c)
      {
        var (x, y) := Iterate(target, c, m);
        if Near(x, y, target, c) || Singular(x, y, c) {
          IterateStays(target, c, m, n);
        }
      }
    }
  }

  /** projectToUV of a corner of a parallelogram is that corner of the unit square, exactly. */
  lemma CornersInverted(c: Corners)
    requires Parallelogram(c) && !Singular(0.5, 0.5, c)
    ensures Near(0.5, 0.5, c.nw, c) || Iterate(c.nw, c, 30) == (0.0, 0.0)
    ensures Near(0.5, 0.5, c.sw, c) || Iterate(c.sw, c, 30) == (0.0, 1.0)
    ensures Near(0.5, 0.5, c.se, c) || Iterate(c.se, c, 30) == (1.0, 1.0)
    ensures Near(0.5, 0.5, c.ne, c) || Iterate(c.ne, c, 30) == (1.0, 0.0)
  {
    CornersAreMapped(c);
    ParallelogramInverted(c, 0.0, 0.0);
    ParallelogramInverted(c, 0.0, 1.0);
    ParallelogramInverted(c, 1.0, 1.0);
    ParallelogramInverted(c, 1.0, 0.0);
  }

  /** When the loop stops: both coordinates within a nano-unit, or a determinant below 1e-15. */
  lemma StoppingRules(u: real, v: real, target: Point, c: Corners)
    ensures var f := BilinearForward(u, v, c);
      Near(u, v, target, c) <==>
        && -0.000000001 < f.lng - target.lng < 0.000000001
        && -0.000000001 < f.lat - target.lat < 0.000000001
    ensures var j := JacobianAt(u, v, c);
      Singular(u, v, c) <==>
        -0.000000000000001 < j.dLngdU * j.dLatdV - j.dLngdV * j.dLatdU < 0.000000000000001
  {
    hide Abs, Blend, AlongU, AlongV, BilinearForward, JacobianAt;
    var f, j := BilinearForward(u, v, c), JacobianAt(u, v, c);
    AbsBelow(f.lng - target.lng, EPS);
    AbsBelow(f.lat - target.lat, EPS);
    AbsBelow(Det(j), MIN_DET);
  }

  lemma AbsBelow(x: real, bound: real)
    ensures Abs(x) < bound <==> -bound < x < bound
  {
  }
}
