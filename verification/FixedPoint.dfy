/** Fixed-point kernels of csky_math.h, in their plain C form: saturation, table interpolation, and
    the Clarke and Park transforms with their inverses.  A q31 value is an int32, a q63 an int64;
    `>>` on a signed value is division rounded towards minus infinity, which is Dafny's `/`
    for a positive divisor.  `__QADD` and `__QSUB` saturate. */
module FixedPoint {
  import opened MachineWords

  const Q31 := 0x8000_0000
  const Q62 := 0x4000_0000_0000_0000

  // ---- saturation ----

  function Clamp(x: int): (r: int32)
    ensures -Q31 <= x < Q31 ==> r == x
  {
    if x < -Q31 then -Q31 else if x >= Q31 then Q31 - 1 else x
  }

  function QAdd(a: int32, b: int32): int32 { Clamp(a + b) }
  function QSub(a: int32, b: int32): int32 { Clamp(a - b) }

  function Distance(x: int, y: int): nat { if x < y then y - x else x - y }

  /** Of all 32-bit values `r` is the nearest to `x`. */
  ghost predicate Nearest(x: int, r: int32) {
    forall y: int32 :: Distance(x, r) <= Distance(x, y)
  }

  /** Saturation, for every sum and difference. */
  lemma ClampIsNearest(x: int)
    ensures Nearest(x, Clamp(x))
    ensures Clamp(x) == 2147483647 <==> x >= 2147483647
    ensures Clamp(x) == -2147483648 <==> x <= -2147483648
  {
  }

  lemma SaturatingArithmetic(a: int32, b: int32)
    ensures Nearest(a + b, QAdd(a, b)) && Nearest(a - b, QSub(a, b))
  {
    ClampIsNearest(a + b);
    ClampIsNearest(a - b);
  }

  /** The low 32 bits of `x`, read as signed: the cast `(q31_t) x`. */
  function Low32(x: int): int32 {
    var m := x % TWO_32;
    if m < Q31 then m else m - TWO_32
  }

  /** `x ^ m` for `m` all zeros or all ones, on the bits of 0x7fffffff. */
  function XorMax(m: int): int32
    requires m == 0 || m == -1
  {
    if m == 0 then Q31 - 1 else -Q31
  }

  /** `clip_q63_to_q31`: the high word is compared with the sign of the low word. */
  function Clip(x: int64): int32 {
    if Low32(x / TWO_32) != Low32(x) / Q31 then XorMax(x / TWO_63) else Low32(x)
  }

  /** The comparison is right: clipping is saturation, for every 64-bit value. */
  lemma ClipSaturates(x: int64)
    ensures Clip(x) == Clamp(x) && Nearest(x, Clip(x))
  {
    ClampIsNearest(x);
    var hi, lo := x / TWO_32, x % TWO_32;
    assert x == TWO_32 * hi + lo;
    assert -Q31 <= hi < Q31;
    assert Low32(hi) == hi by {
      if hi < 0 { assert hi % TWO_32 == hi + TWO_32; } else { assert hi % TWO_32 == hi; }
    }
    assert Low32(x) / Q31 == if lo < Q31 then 0 else -1;
  }

  // ---- Clarke ----

  const K1 := 0x24F34E8B  // 1/sqrt(3) in 2.30
  const K2 := 0x49E69D16  // 2/sqrt(3) in 2.30
  const K3 := 0x6ED9EBA1  // sqrt(3)/2 in 1.31
  const Q30 := 0x4000_0000

  /** `csky_clarke_q31`: (Ialpha, Ibeta). */
  function Clarke(ia: int32, ib: int32): (int32, int32) {
    (ia, QAdd(Low32(ia * K1 / Q30), Low32(ib * K2 / Q30)))
  }

  /** `csky_inv_clarke_q31`: (Ia, Ib). */
  function InvClarke(ialpha: int32, ibeta: int32): (int32, int32) {
    (ialpha, QSub(Low32(ibeta * K3 / Q31), Low32(ialpha * Q30 / Q31)))
  }

  predicate Is32(x: int) { -Q31 <= x < Q31 }

  lemma Low32Fits(x: int)
    requires Is32(x)
    ensures Low32(x) == x
  {
    if x < 0 { assert x % TWO_32 == x + TWO_32; } else { assert x % TWO_32 == x; }
  }

  /** The first product always fits; the second exactly for |Ib| up to 1859775393.  Beyond that the
      cast wraps before the saturating addition can do anything about it. */
  lemma ClarkeProducts(ia: int32, ib: int32)
    ensures Is32(ia * K1 / Q30)
    ensures Is32(ib * K2 / Q30) <==> -1859775393 <= ib <= 1859775393
    ensures Low32(ib * K2 / Q30) == ib * K2 / Q30 <==> -1859775393 <= ib <= 1859775393
  {
    if Is32(ib * K2 / Q30) { Low32Fits(ib * K2 / Q30); }
  }

  /** Clarke and back: Ia exactly and Ib within three units below and one above, for all inputs whose
      second product and sum fit. */
  lemma ClarkeRoundTrip(ia: int32, ib: int32)
    requires -1859775393 <= ib <= 1859775393 && Is32(ia * K1 / Q30 + ib * K2 / Q30)
    ensures var (alpha, beta) := Clarke(ia, ib);
      var (ia', ib') := InvClarke(alpha, beta);
      ia' == ia && -3 <= ib' - ib <= 1
  {
    ClarkeProducts(ia, ib);
    Low32Fits(ia * K1 / Q30);
    Low32Fits(ib * K2 / Q30);
    var beta := ia * K1 / Q30 + ib * K2 / Q30;
    assert Clarke(ia, ib) == (ia, beta);
    var p1, p2 := ia * Q30 / Q31, beta * K3 / Q31;
    assert Is32(p1) && Is32(p2);
    Low32Fits(p1);
    Low32Fits(p2);
    ClarkeError(ia, ib, ia * K1 / Q30, ib * K2 / Q30, p1, p2);
    ClampNear(p2 - p1, ib);
  }

  /** The constants are the nearest to 1/sqrt(3), 2/sqrt(3) and sqrt(3)/2 at their scales. */
  lemma ClarkeConstants()
    ensures 3 * ((2 * K1 - 1) * (2 * K1 - 1)) < 4 * (Q30 * Q30) < 3 * ((2 * K1 + 1) * (2 * K1 + 1))
    ensures 3 * ((2 * K2 - 1) * (2 * K2 - 1)) < 16 * (Q30 * Q30) < 3 * ((2 * K2 + 1) * (2 * K2 + 1))
    ensures (2 * K3 - 1) * (2 * K3 - 1) < 3 * (Q31 * Q31) < (2 * K3 + 1) * (2 * K3 + 1)
    ensures Q30 == 1073741824 && Q31 == 2147483648
  {
  }

  /** The forward transform by itself: Ialpha is Ia, and Ibeta the sum of the two products, held at the
      ends of the range exactly when the sum is past them. */
  lemma ClarkeIs(ia: int32, ib: int32)
    requires -1859775393 <= ib <= 1859775393
    ensures var (alpha, beta) := Clarke(ia, ib);
      var sum := ia * 0x24F34E8B / 1073741824 + ib * 0x49E69D16 / 1073741824;
      && alpha == ia && Nearest(sum, beta)
      && (beta == 2147483647 <==> sum >= 2147483647)
      && (beta == -2147483648 <==> sum <= -2147483648)
      && (-2147483648 <= sum <= 2147483647 ==> beta == sum)
  {
    ClarkeProducts(ia, ib);
    var p, q := ia * K1 / Q30, ib * K2 / Q30;
    Low32Fits(p);
    Low32Fits(q);
    ClampIsNearest(p + q);
  }

  /** And the inverse by itself. */
  lemma InvClarkeIs(ialpha: int32, ibeta: int32)
    ensures var (ia, ib) := InvClarke(ialpha, ibeta);
      ia == ialpha && Nearest(ibeta * 0x6ED9EBA1 / 2147483648 - ialpha * 1073741824 / 2147483648, ib)
  {
    var p, q := ibeta * K3 / Q31, ialpha * Q30 / Q31;
    assert Is32(p) && Is32(q);
    Low32Fits(p);
    Low32Fits(q);
    ClampIsNearest(p - q);
  }

  lemma ClampNear(x: int, ib: int32)
    requires -3 <= x - ib <= 1
    ensures -3 <= Clamp(x) - ib <= 1
  {
  }

  lemma ClarkeError(ia: int32, ib: int32, a: int, b: int, p1: int, p2: int)
    requires a * Q30 <= ia * K1 < (a + 1) * Q30
    requires b * Q30 <= ib * K2 < (b + 1) * Q30
    requires Is32(a + b)
    requires p1 * Q31 <= ia * Q30 < (p1 + 1) * Q31
    requires p2 * Q31 <= (a + b) * K3 < (p2 + 1) * Q31
    ensures -3 <= p2 - p1 - ib <= 1
  {
  }

  // ---- Park ----

  /** One product: multiply, shift, clip. */
  function Mul(a: int32, b: int32): int32 {
    Product(a, b);
    Clip(a * b / Q31)
  }

  lemma Product(a: int, b: int)
    requires -Q31 <= a <= Q31 && -Q31 <= b <= Q31
    ensures -Q62 <= a * b <= Q62
    ensures -Q31 <= a * b / Q31 <= Q31
  {
    MulBound(a, b, Q31, Q31);
  }

  lemma MulBound(x: int, y: int, m: int, n: int)
    requires 0 <= m && 0 <= n && -m <= x <= m && -n <= y <= n
    ensures -(m * n) <= x * y <= m * n
  {
    var p: int, q: int := if x < 0 then 0 - x else x, if y < 0 then 0 - y else y;
    MulUpTo(p, q, m, n);
    if x < 0 { assert x * y == -(p * y); }
    if y < 0 { assert p * y == -(p * q); }
  }

  lemma MulUpTo(p: int, q: int, m: int, n: int)
    requires 0 <= p <= m && 0 <= q <= n
    ensures 0 <= p * q <= m * n
  {
    assert m * n - p * q == (m - p) * n + p * (n - q);
    assert (m - p) * n >= 0 && p * (n - q) >= 0;
  }

  /** `csky_park_q31`: (Id, Iq). */
  function Park(alpha: int32, beta: int32, sin: int32, cos: int32): (int32, int32) {
    (QAdd(Mul(alpha, cos), Mul(beta, sin)), QSub(Mul(beta, cos), Mul(alpha, sin)))
  }

  /** `csky_inv_park_q31`: (Ialpha, Ibeta). */
  function InvPark(d: int32, q: int32, sin: int32, cos: int32): (int32, int32) {
    (QSub(Mul(d, cos), Mul(q, sin)), QAdd(Mul(q, cos), Mul(d, sin)))
  }

  /** The same without any saturation, and without rounding but for the shifts. */
  function ParkExact(alpha: int, beta: int, sin: int, cos: int): (int, int) {
    (alpha * cos / Q31 + beta * sin / Q31, beta * cos / Q31 - alpha * sin / Q31)
  }

  function InvParkExact(d: int, q: int, sin: int, cos: int): (int, int) {
    (d * cos / Q31 - q * sin / Q31, q * cos / Q31 + d * sin / Q31)
  }

  /** Nothing saturates on the way there and back. */
  ghost predicate NoSaturation(alpha: int32, beta: int32, sin: int32, cos: int32) {
    var (d, q) := ParkExact(alpha, beta, sin, cos);
    var (a, b) := InvParkExact(d, q, sin, cos);
    && Is32(alpha * cos / Q31) && Is32(beta * sin / Q31) && Is32(alpha * sin / Q31) && Is32(beta * cos / Q31)
    && Is32(d) && Is32(q)
    && Is32(d * cos / Q31) && Is32(q * sin / Q31) && Is32(d * sin / Q31) && Is32(q * cos / Q31)
    && Is32(a) && Is32(b)
  }

  lemma MulExact(a: int32, b: int32)
    requires Is32(a * b / Q31)
    ensures Mul(a, b) == a * b / Q31
  {
    ClipSaturates(a * b / Q31);
  }

  /** Then the kernels compute the exact values. */
  lemma ParkIsExact(alpha: int32, beta: int32, sin: int32, cos: int32)
    requires NoSaturation(alpha, beta, sin, cos)
    ensures Park(alpha, beta, sin, cos) == ParkExact(alpha, beta, sin, cos)
    ensures var (d, q) := ParkExact(alpha, beta, sin, cos);
      Is32(d) && Is32(q) && InvPark(d, q, sin, cos) == InvParkExact(d, q, sin, cos)
  {
    hide Mul;
    var (d, q) := ParkExact(alpha, beta, sin, cos);
    MulExact(alpha, cos);
    MulExact(beta, sin);
    MulExact(alpha, sin);
    MulExact(beta, cos);
    MulExact(d, cos);
    MulExact(q, sin);
    MulExact(d, sin);
    MulExact(q, cos);
  }

  lemma MulSaturates(a: int32, b: int32)
    ensures Mul(a, b) == Clamp(a * b / Q31)
  {
    Product(a, b);
    ClipSaturates(a * b / Q31);
  }

  /** Each transform by itself, for all inputs: four saturated products, added or subtracted with
      saturation. */
  lemma ParkIs(alpha: int32, beta: int32, sin: int32, cos: int32)
    ensures var (d, q) := Park(alpha, beta, sin, cos);
      && d == Clamp(Clamp(alpha * cos / 2147483648) + Clamp(beta * sin / 2147483648))
      && q == Clamp(Clamp(beta * cos / 2147483648) - Clamp(alpha * sin / 2147483648))
  {
    hide Mul, Clamp;
    MulSaturates(alpha, cos);
    MulSaturates(beta, sin);
    MulSaturates(beta, cos);
    MulSaturates(alpha, sin);
  }

  lemma InvParkIs(d: int32, q: int32, sin: int32, cos: int32)
    ensures var (alpha, beta) := InvPark(d, q, sin, cos);
      && alpha == Clamp(Clamp(d * cos / 2147483648) - Clamp(q * sin / 2147483648))
      && beta == Clamp(Clamp(q * cos / 2147483648) + Clamp(d * sin / 2147483648))
  {
    hide Mul, Clamp;
    MulSaturates(d, cos);
    MulSaturates(q, sin);
    MulSaturates(q, cos);
    MulSaturates(d, sin);
  }

  /** Where nothing saturates, Park alone is the rotation by the angle, two units low at most on Id and
      less than one off on Iq. */
  lemma ParkRotates(alpha: int32, beta: int32, sin: int32, cos: int32)
    requires NoSaturation(alpha, beta, sin, cos)
    ensures var (d, q) := Park(alpha, beta, sin, cos);
      && -2 * 2147483648 < 2147483648 * d - (alpha * cos + beta * sin) <= 0
      && -2147483648 < 2147483648 * q - (beta * cos - alpha * sin) < 2147483648
  {
    hide Park, InvPark, NoSaturation;
    ParkIsExact(alpha, beta, sin, cos);
    var ac, bs, bc, as_ := alpha * cos, beta * sin, beta * cos, alpha * sin;
    var e1, e2, e3, e4 := Lost(ac), Lost(bs), Lost(bc), Lost(as_);
  }

  /** The quotient by Q31, multiplied back, and what the shift threw away. */
  function Lost(x: int): (e: int)
    ensures 0 <= e < Q31 && Q31 * (x / Q31) == x - e
  {
    x % Q31
  }

  lemma Assoc(x: int, y: int, z: int)
    ensures (x * y) * z == x * (y * z)
  {
  }

  lemma Swap(x: int, y: int, z: int)
    ensures (x * y) * z == (x * z) * y
  {
  }

  lemma Spread(x: int, y: int, z: int, k: int)
    ensures (x + y - z) * k == x * k + y * k - z * k
  {
  }

  /** Q62 * a' = alpha * (sin^2 + cos^2) + error, by pure algebra from the six shifts. */
  lemma AlphaIdentity(alpha: int, beta: int, s: int, c: int, d: int, q: int, a: int, e1: int, e2: int, e3: int)
    requires Q31 * d == alpha * c + beta * s - e1
    requires Q31 * q == beta * c - alpha * s - e2
    requires Q31 * a == d * c - q * s - e3
    ensures Q62 * a == alpha * (s * s + c * c) - e1 * c + e2 * s - Q31 * e3
  {
    var ac, bs, bc, as_ := alpha * c, beta * s, beta * c, alpha * s;
    var dc, qs := (Q31 * d) * c, (Q31 * q) * s;
    Assoc(Q31, d, c);
    Assoc(Q31, q, s);
    assert dc == ac * c + bs * c - e1 * c by { Spread(ac, bs, e1, c); }
    assert qs == bc * s - as_ * s - e2 * s by { Spread(bc, -as_, e2, s); }
    Swap(beta, s, c);
    Turned(alpha, s, c);
  }

  lemma BetaIdentity(alpha: int, beta: int, s: int, c: int, d: int, q: int, b: int, e1: int, e2: int, e4: int)
    requires Q31 * d == alpha * c + beta * s - e1
    requires Q31 * q == beta * c - alpha * s - e2
    requires Q31 * b == q * c + d * s - e4
    ensures Q62 * b == beta * (s * s + c * c) - e2 * c - e1 * s - Q31 * e4
  {
    var ac, bs, bc, as_ := alpha * c, beta * s, beta * c, alpha * s;
    var qc, ds := (Q31 * q) * c, (Q31 * d) * s;
    Assoc(Q31, q, c);
    Assoc(Q31, d, s);
    assert qc == bc * c - as_ * c - e2 * c by { Spread(bc, -as_, e2, c); }
    assert ds == ac * s + bs * s - e1 * s by { Spread(ac, bs, e1, s); }
    Swap(alpha, s, c);
    Turned(beta, s, c);
  }

  lemma Turned(x: int, s: int, c: int)
    ensures (x * s) * s + (x * c) * c == x * (s * s + c * c)
  {
    Assoc(x, s, s);
    Assoc(x, c, c);
    assert x * (s * s + c * c) == x * (s * s) + x * (c * c);
  }

  ghost predicate Within(units: int, scaled: int, want: int) {
    -units * Q62 < scaled - want < units * Q62
  }

  /** Park and back, with the shifts but no saturation: (alpha, beta) scaled by sin^2 + cos^2, with an
      error below four units on alpha and five on beta. */
  lemma ParkError(alpha: int, beta: int, s: int, c: int)
    requires -Q31 <= s <= Q31 && -Q31 <= c <= Q31
    ensures var (d, q) := ParkExact(alpha, beta, s, c);
      var (a, b) := InvParkExact(d, q, s, c);
      Within(4, Q62 * a, alpha * (s * s + c * c)) && Within(5, Q62 * b, beta * (s * s + c * c))
  {
    var (d, q) := ParkExact(alpha, beta, s, c);
    var (a, b) := InvParkExact(d, q, s, c);
    var e1 := Lost(alpha * c) + Lost(beta * s);
    var e2 := Lost(beta * c) - Lost(alpha * s);
    var e3 := Lost(d * c) - Lost(q * s);
    var e4 := Lost(q * c) + Lost(d * s);
    AlphaIdentity(alpha, beta, s, c, d, q, a, e1, e2, e3);
    BetaIdentity(alpha, beta, s, c, d, q, b, e1, e2, e4);
    MulBound(e1, c, 2 * Q31 - 2, Q31);
    MulBound(e2, s, Q31 - 1, Q31);
    MulBound(e2, c, Q31 - 1, Q31);
    MulBound(e1, s, 2 * Q31 - 2, Q31);
  }

  lemma ParkRoundTrip(alpha: int32, beta: int32, sin: int32, cos: int32)
    requires NoSaturation(alpha, beta, sin, cos)
    ensures var (d, q) := Park(alpha, beta, sin, cos);
      var (a, b) := InvPark(d, q, sin, cos);
      && Within(4, Q62 * a, alpha * (sin * sin + cos * cos))
      && Within(5, Q62 * b, beta * (sin * sin + cos * cos))
  {
    hide Park, InvPark, ParkExact, InvParkExact, Within;
    ParkIsExact(alpha, beta, sin, cos);
    ParkError(alpha, beta, sin, cos);
  }

  // ---- inputs for which nothing saturates ----

  lemma SquareRoot(x: int, y: int)
    requires y >= 0 && x * x <= y * y
    ensures -y <= x <= y
  {
    if x > y {
      assert x * x - y * y == (x - y) * (x + y);
      assert (x - y) * (x + y) >= 1 * 1 by { MulBoundBelow(x - y, x + y); }
    } else if x < -y {
      assert x * x - y * y == (-x - y) * (-x + y);
      assert (-x - y) * (-x + y) >= 1 * 1 by { MulBoundBelow(-x - y, -x + y); }
    }
  }

  lemma MulBoundBelow(x: int, y: int)
    requires x >= 1 && y >= 1
    ensures x * y >= 1
  {
  }

  lemma SquareOfProduct(x: int, y: int)
    ensures (x * y) * (x * y) == (x * x) * (y * y)
  {
    Assoc(x, y, x * y);
    Swap(x, y, y);
    assert y * (x * y) == x * (y * y);
    Assoc(x, x, y * y);
  }

  lemma SquareOfSum(x: int, y: int)
    ensures (x + y) * (x + y) == x * x + 2 * (x * y) + y * y
  {
  }

  /** The length of a rotated vector: Lagrange's identity. */
  lemma RotatedLength(a: int, b: int, s: int, c: int)
    ensures (a * c + b * s) * (a * c + b * s) + (b * c - a * s) * (b * c - a * s) == (a * a + b * b) * (s * s + c * c)
  {
    var ac, bs, bc, as_ := a * c, b * s, b * c, a * s;
    SquareOfSum(ac, bs);
    SquareOfSum(bc, -as_);
    assert ac * bs == bc * as_ by { Cross(a, b, c, s); }
    SquareOfProduct(a, c);
    SquareOfProduct(b, s);
    SquareOfProduct(b, c);
    SquareOfProduct(a, s);
    FourWays(a * a, b * b, s * s, c * c);
  }

  lemma Cross(a: int, b: int, c: int, s: int)
    ensures (a * c) * (b * s) == (b * c) * (a * s)
  {
  }

  lemma FourWays(x: int, y: int, u: int, v: int)
    ensures (x + y) * (u + v) == x * u + x * v + y * u + y * v
  {
  }

  const RADIUS := Q31 - 8

  /** Vectors up to eight units inside the unit circle, angles given by any sine and cosine with
      sin^2 + cos^2 <= 1. */
  predicate InUnitCircle(alpha: int, beta: int, sin: int, cos: int) {
    alpha * alpha + beta * beta <= RADIUS * RADIUS && sin * sin + cos * cos <= Q62
  }

  lemma LegOfSquare(x: int, y: int, r: int)
    requires r >= 0 && x * x + y * y <= r * r
    ensures -r <= x <= r && -r <= y <= r
  {
    assert x * x >= 0 && y * y >= 0;
    SquareRoot(x, r);
    SquareRoot(y, r);
  }

  lemma RotatedBound(alpha: int, beta: int, s: int, c: int)
    requires InUnitCircle(alpha, beta, s, c)
    ensures -RADIUS * Q31 <= alpha * c + beta * s <= RADIUS * Q31
    ensures -RADIUS * Q31 <= beta * c - alpha * s <= RADIUS * Q31
  {
    var v, w := alpha * alpha + beta * beta, s * s + c * c;
    assert v >= 0 && w >= 0;
    MulBound(v, w, RADIUS * RADIUS, Q62);
    RotatedLength(alpha, beta, s, c);
    LegOfSquare(alpha * c + beta * s, beta * c - alpha * s, RADIUS * Q31);
  }

  lemma QuotientBound(x: int, r: int)
    requires -r * Q31 <= x <= r * Q31
    ensures -r <= x / Q31 <= r
  {
  }

  lemma ProductQuotient(x: int, y: int, r: int)
    requires 0 <= r && -r <= x <= r && -Q31 <= y <= Q31
    ensures -r <= x * y / Q31 <= r
  {
    MulBound(x, y, r, Q31);
    QuotientBound(x * y, r);
  }

  lemma OutputBound(x: int, w: int, scaled: int, units: int)
    requires -RADIUS <= x <= RADIUS && 0 <= w <= Q62 && 0 < units <= 5 && Within(units, Q62 * scaled, x * w)
    ensures Is32(scaled)
  {
    MulBound(x, w, RADIUS, Q62);
  }

  /** For those inputs nothing saturates, so the round trip is good to the stated error. */
  lemma UnitCircleRoundTrip(alpha: int32, beta: int32, sin: int32, cos: int32)
    requires InUnitCircle(alpha, beta, sin, cos)
    ensures NoSaturation(alpha, beta, sin, cos)
    ensures var (d, q) := Park(alpha, beta, sin, cos);
      var (a, b) := InvPark(d, q, sin, cos);
      && Within(4, Q62 * a, alpha * (sin * sin + cos * cos))
      && Within(5, Q62 * b, beta * (sin * sin + cos * cos))
  {
    hide Within, Park, InvPark;
    LegOfSquare(alpha, beta, RADIUS);
    LegOfSquare(sin, cos, Q31);
    ProductQuotient(alpha, cos, RADIUS);
    ProductQuotient(beta, sin, RADIUS);
    ProductQuotient(alpha, sin, RADIUS);
    ProductQuotient(beta, cos, RADIUS);
    var (d, q) := ParkExact(alpha, beta, sin, cos);
    assert -(RADIUS + 2) <= d <= RADIUS + 2 && -(RADIUS + 2) <= q <= RADIUS + 2 by {
      RotatedBound(alpha, beta, sin, cos);
      var e1, e2, e3, e4 := Lost(alpha * cos), Lost(beta * sin), Lost(beta * cos), Lost(alpha * sin);
    }
    ProductQuotient(d, cos, RADIUS + 2);
    ProductQuotient(q, sin, RADIUS + 2);
    ProductQuotient(d, sin, RADIUS + 2);
    ProductQuotient(q, cos, RADIUS + 2);
    ParkError(alpha, beta, sin, cos);
    var (a, b) := InvParkExact(d, q, sin, cos);
    var w := sin * sin + cos * cos;
    assert w >= 0;
    OutputBound(alpha, w, a, 4);
    OutputBound(beta, w, b, 5);
    ParkRoundTrip(alpha, beta, sin, cos);
  }

  // ---- table interpolation ----

  const FRACT := 0x10_0000  // 2^20: x has 20 fractional bits

  /** Index and fraction of a 12.20 value. */
  function Index(x: int32): int { x / FRACT }
  function Fract(x: int32): (f: int)
    ensures 0 <= f < FRACT
  {
    x % FRACT
  }

  /** The casts `(q15_t) x` and `(q7_t) x`. */
  function Low16(x: int): int16 {
    var m := x % TWO_16;
    if m < 0x8000 then m else m - TWO_16
  }

  function Low8(x: int): int8 {
    var m := x % TWO_8;
    if m < 0x80 then m else m - TWO_8
  }

  /** `csky_linear_interp_q15`. */
  function Interp15(table: seq<int16>, x: int32): int16
    requires table != []
  {
    var n := |table|;
    if Index(x) >= n - 1 then table[n - 1]
    else if Index(x) < 0 then table[0]
    else Low16(Mix(table[Index(x)], table[Index(x) + 1], Fract(x)))
  }

  /** `csky_linear_interp_q7`, which looks at the sign first and keeps 12 bits of the index. */
  function Interp7(table: seq<int8>, x: int32): int8
    requires table != []
  {
    var n, i := |table|, Index(x) % 0x1000;
    if x < 0 then table[0]
    else if i >= n - 1 then table[n - 1]
    else Low8(Mix(table[i], table[i + 1], Fract(x)))
  }

  function Mix(y0: int, y1: int, f: int): int {
    (y0 * (FRACT - 1 - f) + y1 * f) / FRACT
  }

  /** `csky_linear_interp_q31`, with its casts and its final shift. */
  function Interp31(table: seq<int32>, x: int32): int32
    requires table != []
  {
    var n := |table|;
    if Index(x) >= n - 1 then table[n - 1]
    else if Index(x) < 0 then table[0]
    else Low32(2 * Low32(Half31(table[Index(x)], table[Index(x) + 1], Fract(x))))
  }

  /** Half the result: two products, each shifted by 32. */
  function Half31(y0: int32, y1: int32, f: int): int {
    Low32(y0 * (Q31 - 1 - 2048 * f) / TWO_32) + Low32(y1 * (2048 * f) / TWO_32)
  }

  /** A weighted sum lies between its terms. */
  lemma Weighted(y0: int, y1: int, u: int, v: int)
    requires 0 <= u && 0 <= v
    ensures Min(y0, y1) * (u + v) <= y0 * u + y1 * v <= Max(y0, y1) * (u + v)
  {
    var lo, hi := Min(y0, y1), Max(y0, y1);
    assert y0 * u - lo * u == (y0 - lo) * u && y1 * v - lo * v == (y1 - lo) * v;
    assert hi * u - y0 * u == (hi - y0) * u && hi * v - y1 * v == (hi - y1) * v;
    assert (y0 - lo) * u >= 0 && (y1 - lo) * v >= 0 && (hi - y0) * u >= 0 && (hi - y1) * v >= 0;
    assert lo * (u + v) == lo * u + lo * v && hi * (u + v) == hi * u + hi * v;
  }

  /** `y` lies between the two values, or one unit below the lower one if that is positive; so it is in
      any range that holds both of them and 0. */
  predicate Between(y: int, y0: int, y1: int) {
    (if Min(y0, y1) > 0 then Min(y0, y1) - 1 else Min(y0, y1)) <= y <= Max(y0, y1)
  }

  lemma MixBounds(y0: int16, y1: int16, f: int)
    requires 0 <= f < FRACT
    ensures Between(Mix(y0, y1, f), y0, y1)
  {
    Weighted(y0, y1, FRACT - 1 - f, f);
    Shifted(Min(y0, y1), Max(y0, y1), y0 * (FRACT - 1 - f) + y1 * f);
  }

  lemma Shifted(lo: int16, hi: int16, t: int)
    requires lo * (FRACT - 1) <= t <= hi * (FRACT - 1)
    ensures (if lo > 0 then lo - 1 else lo) <= t / FRACT <= hi
  {
  }

  /** For q7 tables no intermediate value leaves 32 bits. */
  lemma MixStaysIn32(y0: int8, y1: int8, f: int)
    requires 0 <= f < FRACT
    ensures Is32(y0 * (FRACT - 1 - f)) && Is32(y1 * f) && Is32(y0 * (FRACT - 1 - f) + y1 * f)
  {
    MulBound(y0, FRACT - 1 - f, 0x80, FRACT);
    MulBound(y1, f, 0x80, FRACT);
  }

  /** On a table point, q15 and q7 give the value itself when it is not positive, and one less when it
      is. */
  lemma MixAtTablePoint(y0: int16, y1: int16)
    ensures Mix(y0, y1, 0) == if y0 > 0 then y0 - 1 else y0
  {
  }

  /** There q31 gives an odd value less one, a positive even value less two, and any other exactly. */
  lemma HalfAtTablePoint(y0: int32, y1: int32)
    ensures Low32(2 * Low32(Half31(y0, y1, 0))) == if y0 % 2 == 1 then y0 - 1 else if y0 > 0 then y0 - 2 else y0
  {
    var h := if y0 % 2 == 1 then (y0 - 1) / 2 else if y0 > 0 then y0 / 2 - 1 else y0 / 2;
    assert h * TWO_32 <= y0 * (Q31 - 1) < (h + 1) * TWO_32;
    assert y0 * (Q31 - 1) / TWO_32 == h;
    Low32Fits(h);
    Low32Fits(2 * h);
  }

  /** q31: the two truncated products and the doubling stay in 32 bits, and the result is between the
      neighbours, at most four units low. */
  lemma HalfBounds(y0: int32, y1: int32, f: int)
    requires 0 <= f < FRACT
    ensures var y := 2 * Half31(y0, y1, f);
      Is32(y) && Low32(2 * Low32(Half31(y0, y1, f))) == y && Min(y0, y1) - 4 <= y <= Max(y0, y1)
  {
    var u, v := Q31 - 1 - 2048 * f, 2048 * f;
    MulBound(y0, u, Q31, Q31);
    MulBound(y1, v, Q31, Q31);
    var a, b := y0 * u / TWO_32, y1 * v / TWO_32;
    Low32Fits(a);
    Low32Fits(b);
    Weighted(y0, y1, u, v);
    HalfSum(Min(y0, y1), Max(y0, y1), y0 * u, y1 * v, a, b);
    // no overflow at the bottom: u is odd, v even
    var k := Q30 - 1 - 1024 * f;
    assert u == 2 * k + 1;
    assert a >= -(k + 1) by { LeastProduct(y0, u); }
    assert b >= -(1024 * f) by { LeastProduct(y1, v); }
    Low32Fits(a + b);
    Low32Fits(2 * (a + b));
  }

  lemma LeastProduct(y: int32, u: int)
    requires u >= 0
    ensures y * u >= -Q31 * u
  {
    assert y * u + Q31 * u == (y + Q31) * u;
    assert (y + Q31) * u >= 0;
  }

  lemma HalfSum(lo: int32, hi: int32, p: int, q: int, a: int, b: int)
    requires a * TWO_32 <= p < (a + 1) * TWO_32 && b * TWO_32 <= q < (b + 1) * TWO_32
    requires lo * (Q31 - 1) <= p + q <= hi * (Q31 - 1)
    ensures lo - 4 <= 2 * (a + b) <= hi
  {
  }

  /** Interpolation never reads outside the table, and neither the arithmetic nor the final cast
      overflows: the result lies between the two neighbouring values up to the stated error, and
      outside the table it is the first or the last value. */
  lemma Interp15Bounds(table: seq<int16>, x: int32)
    requires table != []
    ensures var i, y := Index(x), Interp15(table, x);
      if i < 0 then y == table[0]
      else if i >= |table| - 1 then y == table[|table| - 1]
      else y == Mix(table[i], table[i + 1], Fract(x)) && Between(y, table[i], table[i + 1])
  {
    var i := Index(x);
    if 0 <= i < |table| - 1 {
      MixBounds(table[i], table[i + 1], Fract(x));
      Low16Fits(Mix(table[i], table[i + 1], Fract(x)));
    }
  }

  lemma Interp7Bounds(table: seq<int8>, x: int32)
    requires table != []
    ensures var i, y := Index(x), Interp7(table, x);
      if i < 0 then y == table[0]
      else if i >= |table| - 1 then y == table[|table| - 1]
      else y == Mix(table[i], table[i + 1], Fract(x)) && Between(y, table[i], table[i + 1])
  {
    var i := Index(x);
    if 0 <= i {
      assert i < 0x800 && i % 0x1000 == i;
      if i < |table| - 1 {
        MixBounds(table[i], table[i + 1], Fract(x));
        Low8Fits(Mix(table[i], table[i + 1], Fract(x)));
      }
    }
  }

  lemma Low16Fits(x: int16)
    ensures Low16(x) == x
  {
  }

  lemma Low8Fits(x: int8)
    ensures Low8(x) == x
  {
  }

  /** `x` is the table index `i` and the fraction `g`. */
  predicate AtPoint(x: int32, i: nat, g: nat, n: nat) {
    x == 0x10_0000 * i + g && g < 0x10_0000 && i + 1 < n
  }

  lemma PointParts(x: int32, i: nat, g: nat, n: nat)
    requires AtPoint(x, i, g, n)
    ensures Index(x) == i && Fract(x) == g
  {
  }

  /** The straight line between the two neighbours, at the scale of the fraction. */
  function Line(y0: int, y1: int, g: nat): int
    requires g < 0x10_0000
  {
    y0 * (0x10_0000 - g) + y1 * g
  }

  lemma LineParts(y0: int, y1: int, g: nat)
    requires g < 0x10_0000
    ensures y0 * (FRACT - 1 - g) + y1 * g == Line(y0, y1, g) - y0
  {
    assert y0 * (FRACT - g) == y0 * (FRACT - 1 - g) + y0;
  }

  /** Between table points the result follows the straight line: below it by the value on the left,
      scaled down, and by less than one unit more. */
  lemma Interp15Line(table: seq<int16>, x: int32, i: nat, g: nat)
    requires AtPoint(x, i, g, |table|)
    ensures var off := 0x10_0000 * Interp15(table, x) - Line(table[i], table[i + 1], g);
      -0x10_0000 - table[i] < off <= -(table[i] as int)
  {
    PointParts(x, i, g, |table|);
    Interp15Bounds(table, x);
    hide Interp15, Line;
    LineParts(table[i], table[i + 1], g);
    Floor20(table[i] * (FRACT - 1 - g) + table[i + 1] * g);
  }

  lemma Floor20(t: int)
    ensures t - FRACT < FRACT * (t / FRACT) <= t
  {
  }

  lemma Interp7Line(table: seq<int8>, x: int32, i: nat, g: nat)
    requires AtPoint(x, i, g, |table|)
    ensures var off := 0x10_0000 * Interp7(table, x) - Line(table[i], table[i + 1], g);
      -0x10_0000 - table[i] < off <= -(table[i] as int)
  {
    PointParts(x, i, g, |table|);
    Interp7Bounds(table, x);
    hide Interp7, Line;
    LineParts(table[i], table[i + 1], g);
    Floor20(table[i] * (FRACT - 1 - g) + table[i + 1] * g);
  }

  /** For q31 the two shifts lose less than two units of half weight each. */
  lemma Interp31Line(table: seq<int32>, x: int32, i: nat, g: nat)
    requires AtPoint(x, i, g, |table|)
    ensures var off := 2048 * (0x10_0000 * Interp31(table, x) - Line(table[i], table[i + 1], g));
      -0x2_0000_0000 - table[i] < off <= -(table[i] as int)
  {
    PointParts(x, i, g, |table|);
    var y0, y1 := table[i], table[i + 1];
    HalfBounds(y0, y1, g);
    assert Interp31(table, x) == 2 * Half31(y0, y1, g);
    HalfLine(y0, y1, g);
  }

  lemma HalfLine(y0: int32, y1: int32, g: nat)
    requires g < 0x10_0000
    ensures var off := 0x1_0000_0000 * Half31(y0, y1, g) - 2048 * Line(y0, y1, g);
      -0x2_0000_0000 - y0 < off <= -(y0 as int)
  {
    var u, v := Q31 - 1 - 2048 * g, 2048 * g;
    MulBound(y0, u, Q31, Q31);
    MulBound(y1, v, Q31, Q31);
    var a, b := y0 * u / TWO_32, y1 * v / TWO_32;
    Low32Fits(a);
    Low32Fits(b);
    HalfParts(y0, y1, g);
    Floor32(y0 * u);
    Floor32(y1 * v);
  }

  lemma Floor32(t: int)
    ensures t - TWO_32 < TWO_32 * (t / TWO_32) <= t
  {
  }

  lemma HalfParts(y0: int, y1: int, g: nat)
    requires g < 0x10_0000
    ensures y0 * (Q31 - 1 - 2048 * g) + y1 * (2048 * g) == 2048 * Line(y0, y1, g) - y0
  {
    var h := FRACT - g;
    assert Q31 - 1 - 2048 * g == 2048 * h - 1;
    assert y0 * (2048 * h - 1) == 2048 * (y0 * h) - y0;
    assert y1 * (2048 * g) == 2048 * (y1 * g);
  }

  lemma Interp31Bounds(table: seq<int32>, x: int32)
    requires table != []
    ensures var i, y := Index(x), Interp31(table, x);
      if i < 0 then y == table[0]
      else if i >= |table| - 1 then y == table[|table| - 1]
      else Min(table[i], table[i + 1]) - 4 <= y <= Max(table[i], table[i + 1])
  {
    var i := Index(x);
    if 0 <= i < |table| - 1 { HalfBounds(table[i], table[i + 1], Fract(x)); }
  }
}
