/**
 demo/lab_tile_preview.js: from where the Newton iteration of projectToUV converges. Whether a target has
 preimages is decided by a discriminant, every turn keeps that discriminant, and from the second turn on every
 turn cuts the error to a quarter or less.
 */
module NewtonBasin {
  import opened TileProjection

  function Cross(p: Point, q: Point): real {
    p.lng * q.lat - p.lat * q.lng
  }

  function ColumnU(j: Jacobian): Point {
    Point(j.dLngdU, j.dLatdU)
  }

  function ColumnV(j: Jacobian): Point {
    Point(j.dLngdV, j.dLatdV)
  }

  /** How fast the determinant falls as u falls, and as v falls: the same everywhere. */
  function SkewU(c: Corners): real {
    Cross(ColumnU(JacobianAt(0.0, 0.0, c)), Twist(c))
  }

  function SkewV(c: Corners): real {
    Cross(Twist(c), ColumnV(JacobianAt(0.0, 0.0, c)))
  }

  function Square(x: real): real {
    x * x
  }

  function DiscriminantAt(u: real, v: real, target: Point, c: Corners): real {
    var j, e := JacobianAt(u, v, c), ErrorAt(u, v, target, c);
    Square(Det(j)) - 2.0 * (SkewU(c) * NumeratorU(j, e) + SkewV(c) * NumeratorV(j, e)) + Square(Cross(e, Twist(c)))
  }

  /** Of the quadratic equation for a preimage of the target. */
  function Discriminant(target: Point, c: Corners): real {
    DiscriminantAt(0.0, 0.0, target, c)
  }

  // ---------------------------------------------------------------------------
  // Moving along one coordinate
  // ---------------------------------------------------------------------------

  lemma AlongMoved(x: real, d: real, nw: real, sw: real, se: real, ne: real)
    ensures AlongU(x - d, nw, sw, se, ne) == AlongU(x, nw, sw, se, ne) - d * (nw - sw + se - ne)
    ensures AlongV(x - d, nw, sw, se, ne) == AlongV(x, nw, sw, se, ne) - d * (nw - sw + se - ne)
  {
  }

  /** The Jacobian at a point moved by (-du, -dv). */
  lemma JacobianMoved(u: real, v: real, du: real, dv: real, c: Corners)
    ensures var j, j', t := JacobianAt(u, v, c), JacobianAt(u - du, v - dv, c), Twist(c);
      && j'.dLngdU == j.dLngdU - dv * t.lng && j'.dLatdU == j.dLatdU - dv * t.lat
      && j'.dLngdV == j.dLngdV - du * t.lng && j'.dLatdV == j.dLatdV - du * t.lat
  {
    AlongMoved(v, dv, c.nw.lng, c.sw.lng, c.se.lng, c.ne.lng);
    AlongMoved(v, dv, c.nw.lat, c.sw.lat, c.se.lat, c.ne.lat);
    AlongMoved(u, du, c.nw.lng, c.sw.lng, c.se.lng, c.ne.lng);
    AlongMoved(u, du, c.nw.lat, c.sw.lat, c.se.lat, c.ne.lat);
    hide AlongU, AlongV;
  }

  lemma CrossWithTwist(a: Point, t: Point, d: real, a': Point)
    requires a'.lng == a.lng - d * t.lng && a'.lat == a.lat - d * t.lat
    ensures Cross(a', t) == Cross(a, t) && Cross(t, a') == Cross(t, a)
  {
    assert a'.lng * t.lat - a'.lat * t.lng == a.lng * t.lat - a.lat * t.lng;
  }

  lemma SkewsAreConstant(u: real, v: real, c: Corners)
    ensures Cross(ColumnU(JacobianAt(u, v, c)), Twist(c)) == SkewU(c)
    ensures Cross(Twist(c), ColumnV(JacobianAt(u, v, c))) == SkewV(c)
  {
    JacobianMoved(0.0, 0.0, -u, -v, c);
    assert 0.0 - -u == u && 0.0 - -v == v;
    hide Cross, JacobianAt;
    CrossWithTwist(ColumnU(JacobianAt(0.0, 0.0, c)), Twist(c), -v, ColumnU(JacobianAt(u, v, c)));
    CrossWithTwist(ColumnV(JacobianAt(0.0, 0.0, c)), Twist(c), -u, ColumnV(JacobianAt(u, v, c)));
  }

  lemma BlendMoved(u: real, v: real, d: real, nw: real, sw: real, se: real, ne: real)
    ensures Blend(u - d, v, nw, sw, se, ne) == Blend(u, v, nw, sw, se, ne) - d * AlongU(v, nw, sw, se, ne)
    ensures Blend(u, v - d, nw, sw, se, ne) == Blend(u, v, nw, sw, se, ne) - d * AlongV(u, nw, sw, se, ne)
  {
    BlendShifted(u, v, -d, 0.0, nw, sw, se, ne);
    BlendShifted(u, v, 0.0, -d, nw, sw, se, ne);
  }

  /** All that enters the discriminant, as plain numbers: columns, error and twist. */
  function Form(a: Point, b: Point, e: Point, t: Point): real {
    Square(Cross(a, b)) - 2.0 * (Cross(a, t) * Cross(e, b) + Cross(t, b) * Cross(a, e)) + Square(Cross(e, t))
  }

  lemma DiscriminantIsForm(u: real, v: real, target: Point, c: Corners)
    ensures var j, e := JacobianAt(u, v, c), ErrorAt(u, v, target, c);
      DiscriminantAt(u, v, target, c) == Form(ColumnU(j), ColumnV(j), e, Twist(c))
  {
    SkewsAreConstant(u, v, c);
    hide JacobianAt, ErrorAt, SkewU, SkewV, Twist, Square;
    var j, e := JacobianAt(u, v, c), ErrorAt(u, v, target, c);
    NumeratorsAreCross(j, e);
    assert Det(j) == Cross(ColumnU(j), ColumnV(j));
  }

  lemma NumeratorsAreCross(j: Jacobian, e: Point)
    ensures NumeratorU(j, e) == Cross(e, ColumnV(j)) && NumeratorV(j, e) == Cross(ColumnU(j), e)
    ensures Det(j) == Cross(ColumnU(j), ColumnV(j))
  {
  }

  // ---------------------------------------------------------------------------
  // The discriminant belongs to the target, not to the point
  // ---------------------------------------------------------------------------

  function Less(p: Point, d: real, q: Point): Point {
    Point(p.lng - d * q.lng, p.lat - d * q.lat)
  }

  lemma CrossLess(p: Point, d: real, q: Point, r: Point)
    ensures Cross(Less(p, d, q), r) == Cross(p, r) - d * Cross(q, r)
    ensures Cross(r, Less(p, d, q)) == Cross(r, p) - d * Cross(r, q)
  {
    assert (p.lng - d * q.lng) * r.lat - (p.lat - d * q.lat) * r.lng
        == p.lng * r.lat - p.lat * r.lng - d * (q.lng * r.lat - q.lat * r.lng);
    assert r.lng * (p.lat - d * q.lat) - r.lat * (p.lng - d * q.lng)
        == r.lng * p.lat - r.lat * p.lng - d * (r.lng * q.lat - r.lat * q.lng);
  }

  lemma CrossSelf(p: Point, q: Point)
    ensures Cross(p, p) == 0.0 && Cross(p, q) == -Cross(q, p)
  {
  }

  /** The squares and products of a move along one coordinate cancel. */
  lemma MoveCancels(det: real, skew: real, num: real, x: real, d: real, rest: real)
    ensures Square(det - d * skew) - 2.0 * (skew * (num - d * x - d * (det - d * skew)) + rest) + Square(x - d * skew)
         == Square(det) - 2.0 * (skew * num + rest) + Square(x)
  {
    var s := d * skew;
    assert d * (det - s) * skew == s * (det - s);
    assert Square(det - s) == det * det - 2.0 * (s * det) + s * s;
    assert Square(x - s) == x * x - 2.0 * (s * x) + s * s;
    assert skew * (num - d * x - d * (det - s)) == skew * num - s * x - s * det + s * s;
  }

  lemma FormMovedU(a: Point, b: Point, e: Point, t: Point, d: real)
    ensures Form(a, Less(b, d, t), Less(e, d, a), t) == Form(a, b, e, t)
  {
    hide Cross, Less, Square;
    var b', e' := Less(b, d, t), Less(e, d, a);
    var det, skew, num, x := Cross(a, b), Cross(a, t), Cross(e, b), Cross(e, t);
    CrossSelf(t, t);
    CrossSelf(a, a);
    CrossLess(b, d, t, a);
    assert Cross(a, b') == det - d * skew;
    CrossLess(b, d, t, t);
    assert Cross(t, b') == Cross(t, b);
    CrossLess(b, d, t, e);
    CrossLess(e, d, a, b');
    assert Cross(e', b') == num - d * x - d * (det - d * skew);
    CrossLess(e, d, a, a);
    assert Cross(a, e') == Cross(a, e);
    CrossLess(e, d, a, t);
    assert Cross(e', t) == x - d * skew;
    var rest := Cross(t, b) * Cross(a, e);
    assert Cross(t, b') * Cross(a, e') == rest;
    assert Form(a, b', e', t)
        == Square(det - d * skew) - 2.0 * (skew * (num - d * x - d * (det - d * skew)) + rest) + Square(x - d * skew);
    MoveCancels(det, skew, num, x, d, Cross(t, b) * Cross(a, e));
  }

  lemma FormMovedV(a: Point, b: Point, e: Point, t: Point, d: real)
    ensures Form(Less(a, d, t), b, Less(e, d, b), t) == Form(a, b, e, t)
  {
    hide Cross, Less, Square;
    var a', e' := Less(a, d, t), Less(e, d, b);
    var det, skew, num, x := Cross(a, b), Cross(t, b), Cross(a, e), Cross(t, e);
    CrossSelf(t, t);
    CrossSelf(b, b);
    CrossLess(a, d, t, b);
    assert Cross(a', b) == det - d * skew;
    CrossLess(a, d, t, t);
    assert Cross(a', t) == Cross(a, t);
    CrossLess(a, d, t, e);
    CrossLess(e, d, b, a');
    assert Cross(a', e') == num - d * x - d * (det - d * skew);
    CrossLess(e, d, b, b);
    assert Cross(e', b) == Cross(e, b);
    CrossLess(e, d, b, t);
    assert Cross(t, e') == x - d * skew;
    CrossSelf(e, t);
    CrossSelf(e', t);
    SquareOfNegative(x);
    SquareOfNegative(x - d * skew);
    MoveCancels(det, skew, num, x, d, Cross(a, t) * Cross(e, b));
  }

  lemma SquareOfNegative(x: real)
    ensures Square(-x) == Square(x)
  {
  }

  lemma MovedU(u: real, v: real, d: real, target: Point, c: Corners)
    ensures DiscriminantAt(u - d, v, target, c) == DiscriminantAt(u, v, target, c)
  {
    var j, e, t := JacobianAt(u, v, c), ErrorAt(u, v, target, c), Twist(c);
    var j', e' := JacobianAt(u - d, v, c), ErrorAt(u - d, v, target, c);
    DiscriminantIsForm(u, v, target, c);
    DiscriminantIsForm(u - d, v, target, c);
    JacobianMoved(u, v, d, 0.0, c);
    BlendMoved(u, v, d, c.nw.lng, c.sw.lng, c.se.lng, c.ne.lng);
    BlendMoved(u, v, d, c.nw.lat, c.sw.lat, c.se.lat, c.ne.lat);
    hide DiscriminantAt, Form, Blend, AlongU, AlongV, Cross;
    assert v - 0.0 == v;
    assert e' == Less(e, d, ColumnU(j));
    hide Twist;
    assert ColumnU(j') == ColumnU(j) && ColumnV(j') == Less(ColumnV(j), d, t);
    FormMovedU(ColumnU(j), ColumnV(j), e, t, d);
  }

  lemma MovedV(u: real, v: real, d: real, target: Point, c: Corners)
    ensures DiscriminantAt(u, v - d, target, c) == DiscriminantAt(u, v, target, c)
  {
    var j, e, t := JacobianAt(u, v, c), ErrorAt(u, v, target, c), Twist(c);
    var j', e' := JacobianAt(u, v - d, c), ErrorAt(u, v - d, target, c);
    DiscriminantIsForm(u, v, target, c);
    DiscriminantIsForm(u, v - d, target, c);
    JacobianMoved(u, v, 0.0, d, c);
    BlendMoved(u, v, d, c.nw.lng, c.sw.lng, c.se.lng, c.ne.lng);
    BlendMoved(u, v, d, c.nw.lat, c.sw.lat, c.se.lat, c.ne.lat);
    hide DiscriminantAt, Form, Blend, AlongU, AlongV, Cross;
    assert u - 0.0 == u;
    assert e' == Less(e, d, ColumnV(j));
    hide Twist;
    assert ColumnV(j') == ColumnV(j) && ColumnU(j') == Less(ColumnU(j), d, t);
    FormMovedV(ColumnU(j), ColumnV(j), e, t, d);
  }

  /** Every point sees the same discriminant. */
  lemma DiscriminantIsGlobal(u: real, v: real, target: Point, c: Corners)
    ensures DiscriminantAt(u, v, target, c) == Discriminant(target, c)
  {
    MovedU(u, v, u, target, c);
    MovedV(0.0, v, v, target, c);
    assert u - u == 0.0 && v - v == 0.0;
  }

  /** At a preimage it is the square of the determinant: a target with a negative one has no preimage. */
  lemma DiscriminantOfPreimage(u: real, v: real, c: Corners)
    ensures Discriminant(BilinearForward(u, v, c), c) == Square(Det(JacobianAt(u, v, c)))
  {
    var target := BilinearForward(u, v, c);
    DiscriminantIsGlobal(u, v, target, c);
    DiscriminantIsForm(u, v, target, c);
    hide DiscriminantAt, Discriminant, JacobianAt, Twist, BilinearForward;
    assert ErrorAt(u, v, target, c) == Point(0.0, 0.0);
    var j := JacobianAt(u, v, c);
    NumeratorsAreCross(j, Point(0.0, 0.0));
  }

  // ---------------------------------------------------------------------------
  // From one turn to the next
  // ---------------------------------------------------------------------------

  function Skew(c: Corners): real {
    SkewU(c) * SkewV(c)
  }

  /** The product of the two steps taken at a point: what is left of the error afterwards, in twists. */
  function StepProduct(u: real, v: real, target: Point, c: Corners): real {
    if Singular(u, v, c) then 0.0
    else var j, e := JacobianAt(u, v, c), ErrorAt(u, v, target, c); DU(j, e) * DV(j, e)
  }

  function Scaled(m: real, t: Point): Point {
    Point(m * t.lng, m * t.lat)
  }

  lemma CrossScaled(m: real, t: Point, r: Point)
    ensures Cross(Scaled(m, t), r) == m * Cross(t, r) && Cross(r, Scaled(m, t)) == m * Cross(r, t)
  {
    assert m * t.lng * r.lat - m * t.lat * r.lng == m * (t.lng * r.lat - t.lat * r.lng);
    assert r.lng * (m * t.lat) - r.lat * (m * t.lng) == m * (r.lng * t.lat - r.lat * t.lng);
  }

  lemma FormOfTwist(a: Point, b: Point, t: Point, m: real)
    ensures Form(a, b, Scaled(m, t), t) == Square(Cross(a, b)) - 4.0 * (Cross(a, t) * Cross(t, b) * m)
  {
    hide Cross, Scaled;
    var p, q := Cross(a, t), Cross(t, b);
    CrossScaled(m, t, b);
    CrossScaled(m, t, a);
    CrossScaled(m, t, t);
    CrossSelf(t, t);
    assert Cross(Scaled(m, t), t) == 0.0;
    assert p * (m * q) + q * (m * p) == 2.0 * (p * q * m);
  }

  lemma ErrorInTwists(u: real, v: real, target: Point, c: Corners)
    requires !Singular(u, v, c)
    ensures var (u', v') := StepFrom(u, v, target, c);
      ErrorAt(u', v', target, c) == Scaled(StepProduct(u, v, target, c), Twist(c))
  {
    hide ErrorAt, JacobianAt, Twist, DU, DV;
    ErrorAfterStep(u, v, target, c);
  }

  /** Where the error is so many twists, the determinant follows from the discriminant. */
  lemma DeterminantFromError(u: real, v: real, target: Point, c: Corners, m: real)
    requires ErrorAt(u, v, target, c) == Scaled(m, Twist(c))
    ensures Square(Det(JacobianAt(u, v, c))) == Discriminant(target, c) + 4.0 * (Skew(c) * m)
  {
    hide *;
    var j := JacobianAt(u, v, c);
    DiscriminantIsGlobal(u, v, target, c);
    DiscriminantIsForm(u, v, target, c);
    FormOfTwist(ColumnU(j), ColumnV(j), Twist(c), m);
    SkewsAreConstant(u, v, c);
    NumeratorsAreCross(j, ErrorAt(u, v, target, c));
    SkewIs(c);
  }

  /** After a turn the error is the step product in twists, and the determinant is given by it too. */
  lemma AfterTurn(u: real, v: real, target: Point, c: Corners)
    requires !Singular(u, v, c)
    ensures var m, (u', v') := StepProduct(u, v, target, c), StepFrom(u, v, target, c);
      && ErrorAt(u', v', target, c) == Scaled(m, Twist(c))
      && Square(Det(JacobianAt(u', v', c))) == Discriminant(target, c) + 4.0 * (Skew(c) * m)
  {
    hide *;
    var (u', v') := StepFrom(u, v, target, c);
    ErrorInTwists(u, v, target, c);
    DeterminantFromError(u', v', target, c, StepProduct(u, v, target, c));
  }

  lemma ProductsOfSteps(du: real, dv: real, det: real, m: real, p: real, q: real, product: real, skew: real)
    requires du * det == m * q && dv * det == m * p && product == du * dv && skew == p * q
    ensures product * Square(det) == skew * Square(m)
  {
    assert du * dv * (det * det) == (du * det) * (dv * det);
    assert (m * q) * (m * p) == p * q * (m * m);
  }

  lemma NumeratorsFromError(u: real, v: real, target: Point, c: Corners, m: real)
    requires ErrorAt(u, v, target, c) == Scaled(m, Twist(c))
    ensures NumeratorU(JacobianAt(u, v, c), ErrorAt(u, v, target, c)) == m * SkewV(c)
    ensures NumeratorV(JacobianAt(u, v, c), ErrorAt(u, v, target, c)) == m * SkewU(c)
  {
    hide *;
    var j := JacobianAt(u, v, c);
    NumeratorsAreCross(j, ErrorAt(u, v, target, c));
    CrossScaled(m, Twist(c), ColumnV(j));
    CrossScaled(m, Twist(c), ColumnU(j));
    SkewsAreConstant(u, v, c);
  }

  lemma ProductFromError(u: real, v: real, target: Point, c: Corners, m: real)
    requires !Singular(u, v, c) && ErrorAt(u, v, target, c) == Scaled(m, Twist(c))
    ensures StepProduct(u, v, target, c) * Square(Det(JacobianAt(u, v, c))) == Skew(c) * Square(m)
  {
    var j, e := JacobianAt(u, v, c), ErrorAt(u, v, target, c);
    hide *;
    StepProductIs(u, v, target, c);
    NumeratorsFromError(u, v, target, c, m);
    StepsTimesDeterminant(j, e);
    SkewIs(c);
    ProductsOfSteps(DU(j, e), DV(j, e), Det(j), m, SkewU(c), SkewV(c), StepProduct(u, v, target, c), Skew(c));
  }

  lemma StepProductIs(u: real, v: real, target: Point, c: Corners)
    requires !Singular(u, v, c)
    ensures Det(JacobianAt(u, v, c)) != 0.0
    ensures var j, e := JacobianAt(u, v, c), ErrorAt(u, v, target, c);
      StepProduct(u, v, target, c) == DU(j, e) * DV(j, e)
  {
    hide ErrorAt, JacobianAt, Det, DU, DV;
  }

  lemma SkewIs(c: Corners)
    ensures Skew(c) == SkewU(c) * SkewV(c)
  {
  }

  // ---------------------------------------------------------------------------
  // The basin
  // ---------------------------------------------------------------------------

  lemma NonNegativeSquare(x: real)
    ensures Square(x) >= 0.0
  {
  }

  lemma SkewedProduct(k: real, m: real, m': real, det2: real)
    requires det2 > 0.0 && m' * det2 == k * Square(m)
    ensures k * m' * det2 == Square(k * m) && k * m' >= 0.0
  {
    assert k * m' * det2 == k * (k * Square(m));
    assert k * (k * (m * m)) == (k * m) * (k * m);
    NonNegativeSquare(k * m);
  }

  lemma ProductQuartered(k: real, m: real, m': real, det2: real)
    requires det2 > 0.0 && m' * det2 == k * Square(m)
    requires k * m >= 0.0 && det2 >= 4.0 * (k * m)
    ensures 4.0 * Abs(m') <= Abs(m)
  {
    assert k * Square(m) == (k * m) * m;
    NonNegativeAbs(m);
    hide Abs, Square;
    SizesAgree(k * m, m, m', det2);
    QuarteredSizes(k * m, Abs(m), Abs(m'), det2);
  }

  lemma SizesAgree(y: real, m: real, m': real, det2: real)
    requires y >= 0.0 && det2 > 0.0 && m' * det2 == y * m
    ensures Abs(m') * det2 == y * Abs(m) && Abs(m') >= 0.0
  {
    AbsOfProduct(m', det2);
    AbsOfProduct(y, m);
    hide Abs;
    SizeOf(det2);
    SizeOf(y);
    NonNegativeAbs(m');
  }

  lemma SizeOf(x: real)
    requires x >= 0.0
    ensures Abs(x) == x
  {
  }

  lemma QuarteredSizes(y: real, q: real, p: real, det2: real)
    requires y >= 0.0 && det2 > 0.0 && det2 >= 4.0 * y && p >= 0.0 && q >= 0.0 && p * det2 == y * q
    ensures 4.0 * p <= q
  {
    if y == 0.0 {
      ZeroFactor(det2, p);
    } else {
      ProductMonotone(p, 4.0 * y, det2);
      assert p * (4.0 * y) == y * (4.0 * p);
      CancelPositive(y, 4.0 * p, q);
    }
  }

  lemma CancelPositive(y: real, a: real, b: real)
    requires y > 0.0 && y * a <= y * b
    ensures a <= b
  {
  }

  function Pow4(n: nat): real {
    if n == 0 then 1.0 else 4.0 * Pow4(n - 1)
  }

  /** The step product at the n-th point of the loop. */
  function ProductAt(target: Point, c: Corners, n: nat): real {
    var (u, v) := Iterate(target, c, n); StepProduct(u, v, target, c)
  }

  /** The first two determinants are no obstacle, and the target has a preimage that is none. */
  predicate Starts(target: Point, c: Corners) {
    && !Singular(0.5, 0.5, c)
    && (var (u, v) := StepFrom(0.5, 0.5, target, c); !Singular(u, v, c))
    && Discriminant(target, c) >= Square(MIN_DET)
  }

  predicate NearAt(target: Point, c: Corners, n: nat) {
    var (u, v) := Iterate(target, c, n); Near(u, v, target, c)
  }

  predicate SingularAt(target: Point, c: Corners, n: nat) {
    var (u, v) := Iterate(target, c, n); Singular(u, v, c)
  }

  function SquaredDetAt(target: Point, c: Corners, n: nat): real {
    var (u, v) := Iterate(target, c, n); Square(Det(JacobianAt(u, v, c)))
  }

  lemma Stepped(target: Point, c: Corners, n: nat)
    requires !NearAt(target, c, n + 1) && !SingularAt(target, c, n)
    ensures !NearAt(target, c, n)
    ensures var (u, v) := Iterate(target, c, n);
      !Singular(u, v, c) && Iterate(target, c, n + 1) == StepFrom(u, v, target, c)
  {
    hide Near, Singular, StepFrom;
  }

  /** The recurrences along the loop: the error, the determinant and the next step product. */
  lemma ErrorAlongLoop(target: Point, c: Corners, n: nat)
    requires !NearAt(target, c, n + 1) && !SingularAt(target, c, n)
    ensures var (u, v) := Iterate(target, c, n + 1);
      ErrorAt(u, v, target, c) == Scaled(ProductAt(target, c, n), Twist(c))
  {
    hide Singular, Near, StepProduct, ErrorAt, Scaled, Twist, StepFrom, Iterate;
    Stepped(target, c, n);
    var (u, v) := Iterate(target, c, n);
    ErrorInTwists(u, v, target, c);
  }

  lemma DeterminantAlongLoop(target: Point, c: Corners, n: nat)
    requires !NearAt(target, c, n + 1) && !SingularAt(target, c, n)
    ensures SquaredDetAt(target, c, n + 1) == Discriminant(target, c) + 4.0 * (Skew(c) * ProductAt(target, c, n))
  {
    hide Singular, Near, ProductAt, ErrorAt, Scaled, Twist, Square, Det, JacobianAt, Discriminant, Skew, Iterate;
    ErrorAlongLoop(target, c, n);
    var (u, v) := Iterate(target, c, n + 1);
    DeterminantFromError(u, v, target, c, ProductAt(target, c, n));
  }

  lemma ProductAlongLoop(target: Point, c: Corners, n: nat)
    requires !NearAt(target, c, n + 1) && !SingularAt(target, c, n) && !SingularAt(target, c, n + 1)
    ensures ProductAt(target, c, n + 1) * SquaredDetAt(target, c, n + 1) == Skew(c) * Square(ProductAt(target, c, n))
  {
    hide Singular, Near, StepProduct, ErrorAt, Scaled, Twist, Square, Det, JacobianAt, Discriminant, Skew, Iterate;
    ErrorAlongLoop(target, c, n);
    var (u, v) := Iterate(target, c, n + 1);
    ProductFromError(u, v, target, c, ProductAt(target, c, n));
  }

  lemma LargeSquare(det: real)
    requires Square(det) >= Square(MIN_DET)
    ensures Abs(det) >= MIN_DET
  {
    AbsOfProduct(det, det);
    NonNegativeAbs(det);
    if Abs(det) < MIN_DET {
      SquareGrows(Abs(det), MIN_DET, Abs(det) * Abs(det), Square(MIN_DET), MIN_DET - Abs(det), MIN_DET + Abs(det));
      NonNegativeSquare(det);
      SizeOf(det * det);
    }
  }

  lemma SquareGrows(x: real, y: real, xx: real, yy: real, d: real, s: real)
    requires 0.0 <= x < y && xx == x * x && yy == y * y && d == y - x && s == y + x
    ensures xx < yy
  {
    assert d * s > 0.0;
    assert d * s == y * y - x * x;
  }

  lemma SmallSquare(det: real)
    requires Abs(det) >= MIN_DET
    ensures Square(det) > 0.0
  {
  }

  lemma SingularBySquare(target: Point, c: Corners, n: nat)
    ensures SquaredDetAt(target, c, n) >= Square(MIN_DET) ==> !SingularAt(target, c, n)
    ensures !SingularAt(target, c, n) ==> SquaredDetAt(target, c, n) > 0.0
  {
    hide Square, Abs, Det, JacobianAt, Iterate;
    var (u, v) := Iterate(target, c, n);
    var det := Det(JacobianAt(u, v, c));
    if Square(det) >= Square(MIN_DET) {
      LargeSquare(det);
    }
    if Abs(det) >= MIN_DET {
      SmallSquare(det);
    }
  }

  lemma FirstTwo(target: Point, c: Corners)
    requires Starts(target, c) && !NearAt(target, c, 1)
    ensures !SingularAt(target, c, 0) && !SingularAt(target, c, 1)
  {
    hide Near, Singular, StepFrom, Discriminant;
    assert Iterate(target, c, 0) == (0.5, 0.5);
  }

  /** The step product at the n-th point points the way that keeps the determinant large. */
  predicate WellSkewed(target: Point, c: Corners, n: nat) {
    Skew(c) * ProductAt(target, c, n) >= 0.0
  }

  /** It has been quartered n - 1 times since the point after the first turn. */
  predicate Quartered(target: Point, c: Corners, n: nat)
    requires n >= 1
  {
    Abs(ProductAt(target, c, n)) * Pow4(n - 1) <= Abs(ProductAt(target, c, 1))
  }

  /** As long as the loop is not near, no point is singular, and every turn after the first quarters the step
      product. */
  lemma {:induction false} Descent(target: Point, c: Corners, n: nat)
    requires Starts(target, c) && n >= 1 && !NearAt(target, c, n)
    ensures !SingularAt(target, c, n - 1) && !SingularAt(target, c, n)
    ensures WellSkewed(target, c, n) && Quartered(target, c, n)
    decreases n
  {
    hide *;
    if n == 1 {
      FirstTwo(target, c);
      FirstProduct(target, c);
    } else {
      StillNotNear(target, c, n - 1);
      Descent(target, c, n - 1);
      DescentStep(target, c, n);
    }
  }

  lemma FirstProduct(target: Point, c: Corners)
    requires !NearAt(target, c, 1) && !SingularAt(target, c, 0) && !SingularAt(target, c, 1)
    ensures WellSkewed(target, c, 1) && Quartered(target, c, 1)
  {
    FirstQuartered(target, c);
    FirstSkewed(target, c);
  }

  lemma FirstQuartered(target: Point, c: Corners)
    ensures Quartered(target, c, 1)
  {
    hide ProductAt, Abs;
    PowZero(ProductAt(target, c, 1));
  }

  lemma FirstSkewed(target: Point, c: Corners)
    requires !NearAt(target, c, 1) && !SingularAt(target, c, 0) && !SingularAt(target, c, 1)
    ensures WellSkewed(target, c, 1)
  {
    hide NearAt, SingularAt, Skew, ProductAt, SquaredDetAt, Square;
    ProductAlongLoop(target, c, 0);
    SingularBySquare(target, c, 1);
    SkewedProduct(Skew(c), ProductAt(target, c, 0), ProductAt(target, c, 1), SquaredDetAt(target, c, 1));
  }

  lemma DescentStep(target: Point, c: Corners, n: nat)
    requires Starts(target, c) && n >= 2 && !NearAt(target, c, n) && !SingularAt(target, c, n - 1)
    requires WellSkewed(target, c, n - 1) && Quartered(target, c, n - 1)
    ensures !SingularAt(target, c, n)
    ensures WellSkewed(target, c, n) && Quartered(target, c, n)
  {
    hide Starts, NearAt, SingularAt, Skew, ProductAt, SquaredDetAt, Discriminant, Square, Abs, Scaled, Twist;
    hide ErrorAt, Iterate, Pow4;
    DiscriminantLarge(target, c);
    DeterminantAlongLoop(target, c, n - 1);
    SingularBySquare(target, c, n);
    ProductAlongLoop(target, c, n - 1);
    var k, m, m', det2 := Skew(c), ProductAt(target, c, n - 1), ProductAt(target, c, n), SquaredDetAt(target, c, n);
    SkewedProduct(k, m, m', det2);
    ProductQuartered(k, m, m', det2);
    PowStep(m', m, Abs(ProductAt(target, c, 1)), n - 1);
  }

  lemma PowZero(x: real)
    ensures Abs(x) * Pow4(0) <= Abs(x)
  {
  }

  lemma PowPositive(n: nat)
    ensures Pow4(n) > 0.0
  {
  }

  lemma PowStep(m': real, m: real, bound: real, n: nat)
    requires n >= 1 && 4.0 * Abs(m') <= Abs(m) && Abs(m) * Pow4(n - 1) <= bound
    ensures Abs(m') * Pow4(n) <= bound
  {
    var q := Pow4(n - 1);
    PowPositive(n - 1);
    assert Pow4(n) == 4.0 * q;
    hide Abs, Pow4;
    ProductMonotone(q, 4.0 * Abs(m'), Abs(m));
    assert Abs(m') * (4.0 * q) == q * (4.0 * Abs(m'));
  }

  lemma StillNotNear(target: Point, c: Corners, n: nat)
    requires !NearAt(target, c, n + 1)
    ensures !NearAt(target, c, n)
  {
    hide Near, Singular, StepFrom;
  }

  lemma DiscriminantLarge(target: Point, c: Corners)
    requires Starts(target, c)
    ensures Discriminant(target, c) >= Square(MIN_DET) > 0.0
  {
    hide Singular, StepFrom, Discriminant;
  }

  predicate Within(p: Point, bound: real) {
    Abs(p.lng) < bound && Abs(p.lat) < bound
  }

  /** What is left of the error after two turns is no more than the other twenty-eight can take. */
  predicate InBasin(target: Point, c: Corners) {
    Within(Scaled(ProductAt(target, c, 1), Twist(c)), EPS * Pow4(28))
  }

  /**
   The basin. When the first two determinants are no obstacle, the discriminant is that of a preimage which is
   none either, and the error after two turns is less than EPS times 4 to the 28th, the loop ends near.
   */
  lemma BasinReachesTarget(target: Point, c: Corners)
    requires Starts(target, c) && InBasin(target, c)
    ensures NearAt(target, c, 30)
  {
    if !NearAt(target, c, 30) {
      hide *;
      StillNotNear(target, c, 29);
      Descent(target, c, 29);
      LastProduct(target, c);
      ErrorAlongLoop(target, c, 29);
      NearByError(target, c, 30, Scaled(ProductAt(target, c, 29), Twist(c)));
    }
  }

  lemma LastProduct(target: Point, c: Corners)
    requires InBasin(target, c) && Quartered(target, c, 29)
    ensures Within(Scaled(ProductAt(target, c, 29), Twist(c)), EPS)
  {
    hide ProductAt, Twist, Pow4, Scaled, Within, Abs;
    PowPositive(28);
    BothScaledDown(ProductAt(target, c, 29), ProductAt(target, c, 1), Twist(c), EPS, Pow4(28), EPS * Pow4(28));
  }

  lemma NearByError(target: Point, c: Corners, n: nat, e: Point)
    requires var (u, v) := Iterate(target, c, n); ErrorAt(u, v, target, c) == e
    requires Within(e, EPS)
    ensures NearAt(target, c, n)
  {
    hide ErrorAt, Abs, Iterate;
  }

  lemma BothScaledDown(m: real, m1: real, t: Point, eps: real, pow: real, bound: real)
    requires Abs(m) * pow <= Abs(m1) && bound == eps * pow && Within(Scaled(m1, t), bound) && pow > 0.0
    ensures Within(Scaled(m, t), eps)
  {
    hide Abs;
    ScaledDown(m, m1, t.lng, eps, pow, Scaled(m, t).lng, Scaled(m1, t).lng);
    ScaledDown(m, m1, t.lat, eps, pow, Scaled(m, t).lat, Scaled(m1, t).lat);
  }

  lemma ScaledDown(m: real, m1: real, t: real, eps: real, pow: real, p: real, p1: real)
    requires p == m * t && p1 == m1 * t
    requires Abs(m) * pow <= Abs(m1) && Abs(p1) < eps * pow && pow > 0.0
    ensures Abs(p) < eps
  {
    AbsOfProduct(m, t);
    AbsOfProduct(m1, t);
    NonNegativeAbs(t);
    assert Abs(p) == Abs(m) * Abs(t) && Abs(p1) == Abs(m1) * Abs(t);
    hide Abs;
    ProductMonotone(Abs(t), Abs(m) * pow, Abs(m1));
    assert pow * Abs(p) == Abs(t) * (Abs(m) * pow);
    CancelStrictly(pow, Abs(p), eps);
  }

  lemma CancelStrictly(y: real, a: real, b: real)
    requires y > 0.0 && y * a < y * b
    ensures a < b
  {
  }

  lemma NonNegativeAbs(x: real)
    ensures Abs(x) >= 0.0
  {
  }

  /** What the determinant after the first turn is, squared, and what is left of the error after two, times that. */
  function NextSquaredDet(target: Point, c: Corners): real {
    Discriminant(target, c) + 4.0 * (Skew(c) * ProductAt(target, c, 0))
  }

  function NextLeft(target: Point, c: Corners): real {
    Skew(c) * Square(ProductAt(target, c, 0))
  }

  function Limit(det2: real): real {
    EPS * Pow4(28) * det2
  }

  /** The same, read off the start: skews, first steps and twist against the discriminant. */
  predicate StartInBasin(target: Point, c: Corners) {
    Within(Scaled(NextLeft(target, c), Twist(c)), Limit(NextSquaredDet(target, c)))
  }

  lemma Divided(p: real, det2: real, s: real, t: real, bound: real, pt: real, st: real, limit: real)
    requires det2 > 0.0 && p * det2 == s && pt == p * t && st == s * t && limit == bound * det2 && Abs(st) < limit
    ensures Abs(pt) < bound
  {
    assert pt * det2 == st by { assert p * t * det2 == (p * det2) * t; }
    AbsOfProduct(pt, det2);
    SizeOf(det2);
    hide Abs;
    assert det2 * Abs(pt) < det2 * bound;
    CancelStrictly(det2, Abs(pt), bound);
  }

  lemma BothDivided(p: real, det2: real, s: real, t: Point, bound: real, limit: real)
    requires det2 > 0.0 && p * det2 == s && limit == bound * det2 && Within(Scaled(s, t), limit)
    ensures Within(Scaled(p, t), bound)
  {
    hide Abs;
    Divided(p, det2, s, t.lng, bound, Scaled(p, t).lng, Scaled(s, t).lng, limit);
    Divided(p, det2, s, t.lat, bound, Scaled(p, t).lat, Scaled(s, t).lat, limit);
  }

  lemma AfterStart(target: Point, c: Corners)
    requires !NearAt(target, c, 1) && !SingularAt(target, c, 0) && !SingularAt(target, c, 1)
    ensures SquaredDetAt(target, c, 1) == NextSquaredDet(target, c) > 0.0
    ensures ProductAt(target, c, 1) * NextSquaredDet(target, c) == NextLeft(target, c)
  {
    hide NearAt, SingularAt, ProductAt, SquaredDetAt, Skew, Square, Discriminant;
    DeterminantAlongLoop(target, c, 0);
    SingularBySquare(target, c, 1);
    assert SquaredDetAt(target, c, 1) == NextSquaredDet(target, c);
    hide NextSquaredDet;
    ProductAlongLoop(target, c, 0);
  }

  lemma StartIsEnough(target: Point, c: Corners)
    requires Starts(target, c) && StartInBasin(target, c) && !NearAt(target, c, 1)
    ensures InBasin(target, c)
  {
    hide Starts, NearAt, SingularAt, ProductAt, SquaredDetAt, NextSquaredDet, NextLeft, Twist, Scaled, Within;
    hide Pow4, Limit;
    FirstTwo(target, c);
    AfterStart(target, c);
    var det2 := NextSquaredDet(target, c);
    LimitIs(det2);
    BothDivided(ProductAt(target, c, 1), det2, NextLeft(target, c), Twist(c), EPS * Pow4(28), Limit(det2));
  }

  lemma LimitIs(det2: real)
    ensures Limit(det2) == EPS * Pow4(28) * det2
  {
  }

  /**
   For every target that is the image of a point: when neither the start nor the point after the first turn nor
   the preimage is singular, and the start is in the basin, projectToUV's point maps to within EPS of the target
   in both coordinates.
   */
  lemma ImagesAreReached(c: Corners, u: real, v: real)
    requires !Singular(u, v, c) && !Singular(0.5, 0.5, c)
    requires var target := BilinearForward(u, v, c);
      && (var (u1, v1) := StepFrom(0.5, 0.5, target, c); !Singular(u1, v1, c))
      && StartInBasin(target, c)
    ensures NearAt(BilinearForward(u, v, c), c, 30)
  {
    var target := BilinearForward(u, v, c);
    DiscriminantOfPreimage(u, v, c);
    LargeDeterminant(Det(JacobianAt(u, v, c))) by { hide Det, JacobianAt; }
    hide Discriminant, BilinearForward, Det, JacobianAt, StepFrom, StartInBasin, Square, Abs, Near;
    if NearAt(target, c, 1) {
      IterateStays(target, c, 1, 30);
    } else {
      StartIsEnough(target, c);
      BasinReachesTarget(target, c);
    }
  }

  lemma LargeDeterminant(det: real)
    requires Abs(det) >= MIN_DET
    ensures Square(det) >= Square(MIN_DET)
  {
    AbsOfProduct(det, det);
    if Abs(det) > MIN_DET {
      SquareGrows(MIN_DET, Abs(det), Square(MIN_DET), Abs(det) * Abs(det), Abs(det) - MIN_DET, Abs(det) + MIN_DET);
    }
    NonNegativeSquare(det);
    SizeOf(det * det);
  }

  /** A target whose discriminant is negative is the image of no point at all. */
  lemma NoPreimage(target: Point, c: Corners, u: real, v: real)
    requires Discriminant(target, c) < 0.0
    ensures BilinearForward(u, v, c) != target
  {
    if BilinearForward(u, v, c) == target {
      DiscriminantOfPreimage(u, v, c);
      hide Discriminant, Det, JacobianAt, BilinearForward, Square;
      NonNegativeSquare(Det(JacobianAt(u, v, c)));
      assert false;
    }
  }
}
