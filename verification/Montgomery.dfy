/** The field formulas of the X25519 ladder, over any modulus, against the
    Montgomery curve's own doubling and differential addition. */
module Montgomery {

  type Modulus = m: int | m > 0 witness 1

  function Mod(x: int, m: Modulus): (r: int)
    ensures 0 <= r < m
  {
    x % m
  }

  /** A point in projective x/z form. */
  datatype Point = Point(x: int, z: int)

  function Double(p: Point, m: Modulus): Point {
    var a, b := Mod(p.x + p.z, m), Mod(p.x - p.z, m);
    var aa, bb := Mod(a * a, m), Mod(b * b, m);
    var e := Mod(aa - bb, m);
    Point(Mod(aa * bb, m), Mod(e * (aa + 121665 * e), m))
  }

  /** The sum of two points whose difference has x-coordinate `x1`. */
  function DiffAdd(p: Point, q: Point, x1: int, m: Modulus): Point {
    var a, b := Mod(p.x + p.z, m), Mod(p.x - p.z, m);
    var c, d := Mod(q.x + q.z, m), Mod(q.x - q.z, m);
    var da, cb := Mod(d * a, m), Mod(c * b, m);
    Point(Mod((da + cb) * (da + cb), m), Mod(x1 * ((da - cb) * (da - cb)), m))
  }

  lemma DiffAddSymmetric(p: Point, q: Point, x1: int, m: Modulus)
    ensures DiffAdd(p, q, x1, m) == DiffAdd(q, p, x1, m)
  {
    hide Mod;
    var a, b := Mod(p.x + p.z, m), Mod(p.x - p.z, m);
    var c, d := Mod(q.x + q.z, m), Mod(q.x - q.z, m);
    assert d * a == a * d && c * b == b * c;
    SquareOfDifference(Mod(d * a, m), Mod(c * b, m));
  }

  lemma SquareOfDifference(u: int, v: int)
    ensures (u - v) * (u - v) == (v - u) * (v - u)
    ensures (u + v) * (u + v) == (v + u) * (v + u)
  {
  }

  // ---------------------------------------------------------- congruences --

  predicate Congruent(a: int, b: int, m: Modulus) {
    Mod(a, m) == Mod(b, m)
  }

  /** The remainder is the only number below the modulus with its quotient. */
  lemma ModUnique(q: int, r: int, m: Modulus)
    requires 0 <= r < m
    ensures Mod(q * m + r, m) == r
  {
    var x := q * m + r;
    var t := x / m - q;
    assert x == x / m * m + x % m;
    assert t * m == r - x % m;
    assert t >= 1 ==> t * m >= m;
    assert t <= -1 ==> t * m + m <= 0;
  }

  lemma ModIs(x: int, m: Modulus)
    ensures x == x / m * m + Mod(x, m)
  {
  }

  lemma ModShift(x: int, k: int, m: Modulus)
    ensures Congruent(x + k * m, x, m)
  {
    ModIs(x, m);
    ModUnique(x / m + k, Mod(x, m), m);
    assert (x / m + k) * m == x / m * m + k * m;
  }

  lemma ModMod(x: int, m: Modulus)
    ensures Congruent(Mod(x, m), x, m)
  {
    ModUnique(0, Mod(x, m), m);
  }

  /** Congruent numbers differ by a multiple of the modulus. */
  lemma Differ(a: int, b: int, m: Modulus) returns (k: int)
    requires Congruent(a, b, m)
    ensures a == b + k * m
  {
    ModIs(a, m);
    ModIs(b, m);
    k := a / m - b / m;
    assert k * m == a / m * m - b / m * m;
  }

  lemma CongruentSum(a: int, a': int, b: int, b': int, m: Modulus)
    requires Congruent(a, a', m) && Congruent(b, b', m)
    ensures Congruent(a + b, a' + b', m) && Congruent(a - b, a' - b', m)
  {
    var i := Differ(a, a', m);
    var j := Differ(b, b', m);
    hide Mod;
    assert a + b == a' + b' + (i + j) * m && a - b == a' - b' + (i - j) * m;
    ModShift(a' + b', i + j, m);
    ModShift(a' - b', i - j, m);
  }

  lemma CongruentProduct(a: int, a': int, b: int, b': int, m: Modulus)
    requires Congruent(a, a', m) && Congruent(b, b', m)
    ensures Congruent(a * b, a' * b', m)
  {
    var i := Differ(a, a', m);
    var j := Differ(b, b', m);
    hide Mod;
    ProductExpands(a, a', i, b, b', j, m);
    ModShift(a' * b', a' * j + b' * i + (i * j) * m, m);
  }

  lemma ProductExpands(a: int, a': int, i: int, b: int, b': int, j: int, m: int)
    requires a == a' + i * m && b == b' + j * m
    ensures a * b == a' * b' + (a' * j + b' * i + (i * j) * m) * m
  {
    assert a * b == a' * b' + a' * (j * m) + (i * m) * b' + (i * m) * (j * m);
    assert (i * m) * (j * m) == ((i * j) * m) * m;
    assert a' * (j * m) == (a' * j) * m && (i * m) * b' == (b' * i) * m;
  }

  // ------------------------------------------------------------- formulas --

  /** Doubling: x' = (x^2 - z^2)^2 and z' = 4xz (x^2 + 486662 xz + z^2). */
  lemma DoubleIsMontgomery(p: Point, m: Modulus)
    ensures Congruent(Double(p, m).x, (p.x * p.x - p.z * p.z) * (p.x * p.x - p.z * p.z), m)
    ensures Congruent(Double(p, m).z, 4 * p.x * p.z * (p.x * p.x + 486662 * p.x * p.z + p.z * p.z), m)
  {
    hide Mod;
    var x, z := p.x, p.z;
    var a, b := Mod(x + z, m), Mod(x - z, m);
    var aa, bb := Mod(a * a, m), Mod(b * b, m);
    var e := Mod(aa - bb, m);
    var s, d := (x + z) * (x + z), (x - z) * (x - z);
    ModMod(x + z, m);
    ModMod(x - z, m);
    ModMod(a * a, m);
    ModMod(b * b, m);
    CongruentProduct(a, x + z, a, x + z, m);
    CongruentProduct(b, x - z, b, x - z, m);
    assert Congruent(aa, s, m) && Congruent(bb, d, m);
    CongruentProduct(aa, s, bb, d, m);
    ModMod(aa * bb, m);
    SumTimesDifference(x, z);
    CongruentSum(aa, s, bb, d, m);
    ModMod(aa - bb, m);
    var f := 4 * (x * z);
    assert s - d == f;
    assert Congruent(e, f, m);
    CongruentProduct(121665, 121665, e, f, m);
    CongruentSum(aa, s, 121665 * e, 121665 * f, m);
    CongruentProduct(e, f, aa + 121665 * e, s + 121665 * f, m);
    ModMod(e * (aa + 121665 * e), m);
    CurveConstant(x, z);
  }

  lemma SumTimesDifference(x: int, z: int)
    ensures (x + z) * (x + z) * ((x - z) * (x - z)) == (x * x - z * z) * (x * x - z * z)
    ensures (x + z) * (x + z) - (x - z) * (x - z) == 4 * (x * z)
  {
    var u, v := x + z, x - z;
    assert u * v == x * x - z * z;
    assert u * u * (v * v) == (u * v) * (u * v);
  }

  /** (486662 - 2) / 4 == 121665, the ladder's constant. */
  lemma CurveConstant(x: int, z: int)
    ensures 4 * (x * z) * ((x + z) * (x + z) + 121665 * (4 * (x * z)))
      == 4 * x * z * (x * x + 486662 * x * z + z * z)
  {
    assert (x + z) * (x + z) + 121665 * (4 * (x * z)) == x * x + 486662 * (x * z) + z * z;
    assert 486662 * x * z == 486662 * (x * z) && 4 * x * z == 4 * (x * z);
  }

  lemma ReducedProduct(a: int, a': int, b: int, b': int, m: Modulus)
    requires Congruent(a, a', m) && Congruent(b, b', m)
    ensures Congruent(Mod(a * b, m), a' * b', m)
  {
    CongruentProduct(a, a', b, b', m);
    ModMod(a * b, m);
  }

  /** The two products of the addition step, summed and subtracted. */
  lemma CrossCongruent(x2: int, z2: int, x3: int, z3: int, m: Modulus)
    ensures var da := Mod(Mod(x3 - z3, m) * Mod(x2 + z2, m), m); var cb := Mod(Mod(x3 + z3, m) * Mod(x2 - z2, m), m);
      && Congruent(da + cb, 2 * (x3 * x2 - z3 * z2), m)
      && Congruent(da - cb, 2 * (x3 * z2 - z3 * x2), m)
  {
    var da, cb := Mod(Mod(x3 - z3, m) * Mod(x2 + z2, m), m), Mod(Mod(x3 + z3, m) * Mod(x2 - z2, m), m);
    ModMod(x3 - z3, m);
    ModMod(x2 + z2, m);
    ModMod(x3 + z3, m);
    ModMod(x2 - z2, m);
    hide Mod;
    ReducedProduct(Mod(x3 - z3, m), x3 - z3, Mod(x2 + z2, m), x2 + z2, m);
    ReducedProduct(Mod(x3 + z3, m), x3 + z3, Mod(x2 - z2, m), x2 - z2, m);
    CongruentSum(da, (x3 - z3) * (x2 + z2), cb, (x3 + z3) * (x2 - z2), m);
    CrossTerms(x2, z2, x3, z3);
  }

  lemma CrossTerms(x2: int, z2: int, x3: int, z3: int)
    ensures (x3 - z3) * (x2 + z2) + (x3 + z3) * (x2 - z2) == 2 * (x3 * x2 - z3 * z2)
    ensures (x3 - z3) * (x2 + z2) - (x3 + z3) * (x2 - z2) == 2 * (x3 * z2 - z3 * x2)
  {
    assert (x3 - z3) * (x2 + z2) == x3 * x2 + x3 * z2 - z3 * x2 - z3 * z2;
    assert (x3 + z3) * (x2 - z2) == x3 * x2 - x3 * z2 + z3 * x2 - z3 * z2;
  }

  /** Addition: x' = (2 (x3 x2 - z3 z2))^2 and z' = x1 (2 (x3 z2 - z3 x2))^2. */
  lemma DiffAddIsMontgomery(p: Point, q: Point, x1: int, m: Modulus)
    ensures var u, v := 2 * (q.x * p.x - q.z * p.z), 2 * (q.x * p.z - q.z * p.x);
      Congruent(DiffAdd(p, q, x1, m).x, u * u, m) && Congruent(DiffAdd(p, q, x1, m).z, x1 * (v * v), m)
  {
    hide Mod;
    var u, v := 2 * (q.x * p.x - q.z * p.z), 2 * (q.x * p.z - q.z * p.x);
    CrossCongruent(p.x, p.z, q.x, q.z, m);
    var da := Mod(Mod(q.x - q.z, m) * Mod(p.x + p.z, m), m);
    var cb := Mod(Mod(q.x + q.z, m) * Mod(p.x - p.z, m), m);
    ReducedSquares(da + cb, u, da - cb, v, x1, m);
  }

  lemma ReducedSquares(s: int, u: int, d: int, v: int, x1: int, m: Modulus)
    requires Congruent(s, u, m) && Congruent(d, v, m)
    ensures Congruent(Mod(s * s, m), u * u, m) && Congruent(Mod(x1 * (d * d), m), x1 * (v * v), m)
  {
    hide Mod;
    ReducedProduct(s, u, s, u, m);
    CongruentProduct(d, v, d, v, m);
    ReducedProduct(x1, x1, d * d, v * v, m);
  }

  /** The affine coordinate: with a true inverse of `z`, the value `x25519` puts
      out is the residue whose product with `z` is `x`. */
  lemma AffineIsQuotient(r: Point, inverse: int, m: Modulus)
    requires Congruent(r.z * inverse, 1, m)
    ensures var q := Mod(r.x * inverse, m); 0 <= q < m && Congruent(r.z * q, r.x, m)
  {
    hide Mod;
    var q := Mod(r.x * inverse, m);
    ModMod(r.x * inverse, m);
    CongruentProduct(r.z, r.z, q, r.x * inverse, m);
    Associates(r.z, r.x, inverse);
    CongruentProduct(r.x, r.x, r.z * inverse, 1, m);
  }

  lemma Associates(z: int, x: int, inverse: int)
    ensures z * (x * inverse) == x * (z * inverse)
  {
  }
}
