/** The Q31 Park and Clarke transforms and their inverses: what the saturating arithmetic computes,
    and how closely each pair round-trips. */
module Transforms {
  import opened Arith
  import opened CInt
  import opened Saturation

  /** `(q31_t)(((q63_t)x * y) >> 31)`. */
  function MulQ31(x: q31, y: q31): q31 { I32(x * y / 0x8000_0000) }

  function Park(a: q31, b: q31, sinVal: q31, cosVal: q31): (q31, q31) {
    (QAdd(MulQ31(a, cosVal), MulQ31(b, sinVal)), QSub(MulQ31(b, cosVal), MulQ31(a, sinVal)))
  }

  function InvPark(d: q31, q: q31, sinVal: q31, cosVal: q31): (q31, q31) {
    (QSub(MulQ31(d, cosVal), MulQ31(q, sinVal)), QAdd(MulQ31(q, cosVal), MulQ31(d, sinVal)))
  }

  predicate BothMin(x: q31, y: q31) { x == -0x8000_0000 && y == -0x8000_0000 }

  /** The product of two Q31 values overflows Q31 in exactly one case, where it flips sign. */
  lemma MulQ31Narrows(x: q31, y: q31)
    ensures -0x7FFF_FFFF - 1 <= x * y / 0x8000_0000 <= 0x8000_0000
    ensures BothMin(x, y) ==> MulQ31(x, y) == -0x8000_0000 && x * y / 0x8000_0000 == 0x8000_0000
    ensures !BothMin(x, y) ==> MulQ31(x, y) == x * y / 0x8000_0000
  {
    hide I32;
    ProductBound(x, y, 0x8000_0000, 0x8000_0000);
    if !BothMin(x, y) {
      ProductBelowSquare(x, y);
      NarrowToWord(x * y / 0x8000_0000, 0);
    } else {
      NarrowToWord(0x8000_0000, 0);
    }
  }

  lemma ProductBelowSquare(x: q31, y: q31)
    requires !BothMin(x, y)
    ensures x * y < 0x4000_0000_0000_0000
  {
    if x == -0x8000_0000 {
      assert y >= -0x7FFF_FFFF;
    } else {
      ProductBound(x, y, 0x7FFF_FFFF, 0x8000_0000);
    }
  }

  /** The documentation promises no risk of overflow. Each component is the saturated sum of the
      truncated products, for all inputs but those that hit the one overflowing product. */
  lemma ParkSaturatesExactlyWhen(a: q31, b: q31, s: q31, c: q31)
    ensures Park(a, b, s, c).0 == Clamp32(a * c / 0x8000_0000 + b * s / 0x8000_0000)
            <==> !BothMin(a, c) && !BothMin(b, s)
    ensures Park(a, b, s, c).1 == Clamp32(b * c / 0x8000_0000 - a * s / 0x8000_0000)
            <==> (BothMin(b, c) <==> BothMin(a, s))
  {
    hide MulQ31, QAdd, QSub;
    MulQ31Narrows(a, c);
    MulQ31Narrows(b, s);
    MulQ31Narrows(b, c);
    MulQ31Narrows(a, s);
    QAddSubAreClamped(MulQ31(a, c), MulQ31(b, s));
    QAddSubAreClamped(MulQ31(b, c), MulQ31(a, s));
    ClampApart(a * c / 0x8000_0000, b * s / 0x8000_0000);
    ClampApart(b * c / 0x8000_0000, a * s / 0x8000_0000);
  }

  /** The inverse makes the same promise and keeps it under the same kind of condition. */
  lemma InvParkSaturatesExactlyWhen(d: q31, q: q31, s: q31, c: q31)
    ensures InvPark(d, q, s, c).0 == Clamp32(d * c / 0x8000_0000 - q * s / 0x8000_0000)
            <==> (BothMin(d, c) <==> BothMin(q, s))
    ensures InvPark(d, q, s, c).1 == Clamp32(q * c / 0x8000_0000 + d * s / 0x8000_0000)
            <==> !BothMin(q, c) && !BothMin(d, s)
  {
    hide MulQ31, QAdd, QSub;
    MulQ31Narrows(d, c);
    MulQ31Narrows(q, s);
    MulQ31Narrows(q, c);
    MulQ31Narrows(d, s);
    QAddSubAreClamped(MulQ31(d, c), MulQ31(q, s));
    QAddSubAreClamped(MulQ31(q, c), MulQ31(d, s));
    ClampApart(d * c / 0x8000_0000, q * s / 0x8000_0000);
    ClampApart(q * c / 0x8000_0000, d * s / 0x8000_0000);
  }

  lemma ClampApart(p: int, q: int)
    requires -0x8000_0000 <= p <= 0x8000_0000 && -0x8000_0000 <= q <= 0x8000_0000
    ensures p == 0x8000_0000 && q < p ==>
              Clamp32(-p + q) != Clamp32(p + q) && Clamp32(-p - q) != Clamp32(p - q)
    ensures q == 0x8000_0000 && p < q ==>
              Clamp32(p - q) != Clamp32(p + q) && Clamp32(p + q) != Clamp32(p - q)
  {
  }

  /** The truncated product, with the one that wraps. */
  function Product(x: q31, y: q31): int {
    if BothMin(x, y) then -0x8000_0000 else x * y / 0x8000_0000
  }

  /** Both transforms in closed form, for all inputs. */
  lemma ParkIs(a: q31, b: q31, s: q31, c: q31)
    ensures Park(a, b, s, c) == (Clamp32(Product(a, c) + Product(b, s)), Clamp32(Product(b, c) - Product(a, s)))
    ensures InvPark(a, b, s, c) == (Clamp32(Product(a, c) - Product(b, s)), Clamp32(Product(b, c) + Product(a, s)))
  {
    hide MulQ31, QAdd, QSub;
    MulQ31Narrows(a, c);
    MulQ31Narrows(b, s);
    MulQ31Narrows(b, c);
    MulQ31Narrows(a, s);
    QAddSubAreClamped(MulQ31(a, c), MulQ31(b, s));
    QAddSubAreClamped(MulQ31(b, c), MulQ31(a, s));
  }

  // ---------------------------------------------------------------- Park round trip

  /** Rotation preserves length: the identity behind the Cauchy-Schwarz bound. */
  lemma RotationIdentity(a: int, b: int, s: int, c: int)
    ensures (a * c + b * s) * (a * c + b * s) + (b * c - a * s) * (b * c - a * s)
            == (a * a + b * b) * (c * c + s * s)
  {
    SquareOfSum(a * c, b * s);
    SquareOfSum(b * c, -(a * s));
    CrossTerms(a, b, s, c);
    SquareOfProduct(a, c);
    SquareOfProduct(b, s);
    SquareOfProduct(b, c);
    SquareOfProduct(a, s);
    Distribute(a * a, b * b, c * c, s * s);
  }

  lemma SquareOfSum(x: int, y: int)
    ensures (x + y) * (x + y) == x * x + 2 * (x * y) + y * y
  {
  }

  lemma CrossTerms(a: int, b: int, s: int, c: int)
    ensures (a * c) * (b * s) == (b * c) * (a * s)
    ensures (b * c) * (-(a * s)) == -((b * c) * (a * s))
    ensures (-(a * s)) * (-(a * s)) == (a * s) * (a * s)
  {
    assert (a * c) * (b * s) == a * (c * b) * s;
  }

  lemma SquareOfProduct(x: int, y: int)
    ensures (x * y) * (x * y) == (x * x) * (y * y)
  {
  }

  lemma Distribute(p: int, q: int, r: int, t: int)
    ensures (p + q) * (r + t) == p * r + p * t + q * r + q * t
  {
  }

  lemma RootBound(u: int, v: int, r: int)
    requires r >= 0 && u * u + v * v <= r * r
    ensures -r <= u <= r && -r <= v <= r
  {
    SquareNonneg(u);
    SquareNonneg(v);
    if u > r || u < -r {
      SquareOver(u, r);
      assert false;
    }
    if v > r || v < -r {
      SquareOver(v, r);
      assert false;
    }
  }

  lemma SquareOver(u: int, r: int)
    requires r >= 0 && (u > r || u < -r)
    ensures u * u > r * r
  {
    var w := if u < 0 then -u else u;
    assert w * w == u * u;
    MulNonneg(w - r, w + r);
    assert (w - r) * (w + r) == w * w - r * r;
    MulLess(w - r, 0, w + r);
  }

  /** Inputs inside the circle the no-saturation claims are about: a vector of length at most 2^31 - 3,
      the longest for which they hold, and a sine and cosine no longer than the unit circle. */
  predicate InCircle(a: q31, b: q31, s: q31, c: q31) {
    && a * a + b * b <= 0x7FFF_FFFD * 0x7FFF_FFFD
    && c * c + s * s <= 0x4000_0000_0000_0000
  }

  lemma CauchySchwarz(a: q31, b: q31, s: q31, c: q31)
    requires InCircle(a, b, s, c)
    ensures var r := 0x7FFF_FFFD * 0x8000_0000;
            -r <= a * c + b * s <= r && -r <= b * c - a * s <= r
  {
    RotationIdentity(a, b, s, c);
    var m, n := a * a + b * b, c * c + s * s;
    SquareNonneg(c);
    SquareNonneg(s);
    Between(m, m, 0x7FFF_FFFD * 0x7FFF_FFFD, n);
    RootBound(a * c + b * s, b * c - a * s, 0x7FFF_FFFD * 0x8000_0000);
  }

  lemma ComponentBound(a: int, b: int)
    requires a * a + b * b <= 0x7FFF_FFFD * 0x7FFF_FFFD
    ensures -0x7FFF_FFFD <= a <= 0x7FFF_FFFD && -0x7FFF_FFFD <= b <= 0x7FFF_FFFD
  {
    RootBound(a, b, 0x7FFF_FFFD);
  }

  /** A saturating sum or difference of two truncated products that stays in range: the result is
      exact but for the two dropped fractions. */
  lemma TruncatedPair(p: int, q: int)
    ensures var e := p + q - 0x8000_0000 * (p / 0x8000_0000 + q / 0x8000_0000);
            0 <= e <= 0xFFFF_FFFE && (p == 0 || q == 0 ==> e <= 0x7FFF_FFFF)
    ensures var e := p - q - 0x8000_0000 * (p / 0x8000_0000 - q / 0x8000_0000);
            -0x7FFF_FFFF <= e <= 0x7FFF_FFFF
  {
  }

  /** Inside the circle the forward transform never saturates. */
  lemma ParkExact(a: q31, b: q31, s: q31, c: q31)
    requires InCircle(a, b, s, c)
    ensures var (d, q) := Park(a, b, s, c);
            && d == a * c / 0x8000_0000 + b * s / 0x8000_0000
            && q == b * c / 0x8000_0000 - a * s / 0x8000_0000
            && -0x7FFF_FFFF <= d <= 0x7FFF_FFFE && -0x7FFF_FFFE <= q <= 0x7FFF_FFFE
  {
    hide Park;
    ComponentBound(a, b);
    CauchySchwarz(a, b, s, c);
    TruncatedPair(a * c, b * s);
    TruncatedPair(b * c, a * s);
    ParkSaturatesExactlyWhen(a, b, s, c);
  }

  /** What is left of a rotation by the angle and back: the exact vector scaled by c^2 + s^2, and the
      errors of the first pass rotated. */
  lemma RotateBack(a: int, b: int, s: int, c: int, d: int, q: int, e1: int, e2: int)
    requires 0x8000_0000 * d == a * c + b * s - e1 && 0x8000_0000 * q == b * c - a * s - e2
    ensures 0x8000_0000 * (d * c - q * s) == a * (c * c + s * s) - e1 * c + e2 * s
    ensures 0x8000_0000 * (q * c + d * s) == b * (c * c + s * s) - e2 * c - e1 * s
  {
    ScaleLeft(d, c);
    ScaleLeft(d, s);
    ScaleLeft(q, c);
    ScaleLeft(q, s);
    ThreeTimes(a * c, b * s, e1, c);
    ThreeTimes(a * c, b * s, e1, s);
    ThreeTimes(b * c, -(a * s), e2, c);
    ThreeTimes(b * c, -(a * s), e2, s);
    Regroup(a, b, s, c);
  }

  lemma ScaleLeft(d: int, c: int)
    ensures 0x8000_0000 * (d * c) == (0x8000_0000 * d) * c
  {
  }

  lemma ThreeTimes(p: int, q: int, e: int, c: int)
    ensures (p + q - e) * c == p * c + q * c - e * c
  {
  }

  lemma Regroup(a: int, b: int, s: int, c: int)
    ensures a * c * c + b * s * c - (b * c * s + (-(a * s)) * s) == a * (c * c + s * s)
    ensures b * c * c + (-(a * s)) * c + (a * c * s + b * s * s) == b * (c * c + s * s)
  {
    assert a * c * c == a * (c * c) && a * s * s == a * (s * s) && b * s * c == b * c * s;
    assert b * c * c == b * (c * c) && b * s * s == b * (s * s) && a * s * c == a * c * s;
  }

  /** Forward and back: no addition or subtraction saturates and no product overflows, and each
      component returns scaled by (c^2 + s^2)/2^62, within four and within five units. */
  lemma ParkRoundTrip(a: q31, b: q31, s: q31, c: q31)
    requires InCircle(a, b, s, c)
    ensures var (d, q) := Park(a, b, s, c);
            var (a', b') := InvPark(d, q, s, c);
            var k, one := c * c + s * s, 0x4000_0000_0000_0000;
            && d == a * c / 0x8000_0000 + b * s / 0x8000_0000
            && q == b * c / 0x8000_0000 - a * s / 0x8000_0000
            && a' == d * c / 0x8000_0000 - q * s / 0x8000_0000
            && b' == q * c / 0x8000_0000 + d * s / 0x8000_0000
            && -4 * one < one * a' - a * k < 4 * one
            && -5 * one < one * b' - b * k < 5 * one
  {
    hide Park, InvPark;
    ParkExact(a, b, s, c);
    var (d, q) := Park(a, b, s, c);
    var e1, e2 := a * c + b * s - 0x8000_0000 * d, b * c - a * s - 0x8000_0000 * q;
    TruncatedPair(a * c, b * s);
    TruncatedPair(b * c, a * s);
    RotateBack(a, b, s, c, d, q, e1, e2);
    ComponentBound(a, b);
    SecondPass(a, b, s, c, d, q, e1, e2);
    SecondPassInRange(a, b, s, c, d, q, e1, e2);
    InvParkNarrows(d, q, s, c);
  }

  lemma InvParkNarrows(d: q31, q: q31, s: q31, c: q31)
    requires d != -0x8000_0000 && q != -0x8000_0000
    requires -0x8000_0000 <= d * c / 0x8000_0000 - q * s / 0x8000_0000 < 0x8000_0000
    requires -0x8000_0000 <= q * c / 0x8000_0000 + d * s / 0x8000_0000 < 0x8000_0000
    ensures InvPark(d, q, s, c) == (d * c / 0x8000_0000 - q * s / 0x8000_0000,
                                    q * c / 0x8000_0000 + d * s / 0x8000_0000)
  {
    hide MulQ31, QAdd, QSub;
    MulQ31Narrows(d, c);
    MulQ31Narrows(q, s);
    MulQ31Narrows(q, c);
    MulQ31Narrows(d, s);
    QAddSubAreClamped(MulQ31(d, c), MulQ31(q, s));
    QAddSubAreClamped(MulQ31(q, c), MulQ31(d, s));
  }

  /** No addition or subtraction of either pass leaves 32 bits. */
  predicate NothingSaturates(a: q31, b: q31, s: q31, c: q31) {
    var (d, q) := Park(a, b, s, c);
    && d == a * c / 0x8000_0000 + b * s / 0x8000_0000
    && q == b * c / 0x8000_0000 - a * s / 0x8000_0000
    && InvPark(d, q, s, c) == (d * c / 0x8000_0000 - q * s / 0x8000_0000,
                               q * c / 0x8000_0000 + d * s / 0x8000_0000)
  }

  /** A bound on the length of the vector keeps both passes from saturating, for all vectors and angles,
      exactly up to 2^31 - 3. */
  lemma ParkRoundTripFitsExactlyWhen(r: nat)
    ensures (forall a: q31, b: q31, s: q31, c: q31 |
               a * a + b * b <= r * r && c * c + s * s <= 0x4000_0000_0000_0000 :: NothingSaturates(a, b, s, c))
            <==> r <= 0x7FFF_FFFD
  {
    hide NothingSaturates;
    if r <= 0x7FFF_FFFD {
      SquareMono(r, 0x7FFF_FFFD);
      forall a: q31, b: q31, s: q31, c: q31 | a * a + b * b <= r * r && c * c + s * s <= 0x4000_0000_0000_0000
        ensures NothingSaturates(a, b, s, c)
      {
        InCircleFits(a, b, s, c);
      }
    } else {
      SquareMono(0x7FFF_FFFE, r);
      ParkRoundTripSaturates();
      var a: q31, b: q31, s: q31, c: q31 := 0, -2147483646, 997869049, 1901563404;
      assert !NothingSaturates(a, b, s, c);
    }
  }

  lemma InCircleFits(a: q31, b: q31, s: q31, c: q31)
    requires InCircle(a, b, s, c)
    ensures NothingSaturates(a, b, s, c)
  {
    hide Park, InvPark;
    ParkRoundTrip(a, b, s, c);
  }

  /** One unit further the exact sum of the second pass can leave the range, by one unit, and the
      addition saturates. */
  lemma ParkRoundTripSaturates()
    ensures var a, b, s, c := 0, -2147483646, 997869049, 1901563404;
            && a * a + b * b == 0x7FFF_FFFE * 0x7FFF_FFFE && c * c + s * s <= 0x4000_0000_0000_0000
            && !NothingSaturates(a, b, s, c)
  {
    hide QAdd, QSub;
    var a: q31, b: q31, s: q31, c: q31 := 0, -2147483646, 997869049, 1901563404;
    var d: q31, q: q31 := -997869049, -1901563403;
    MulQ31Narrows(a, c);
    MulQ31Narrows(b, s);
    MulQ31Narrows(b, c);
    MulQ31Narrows(a, s);
    MulQ31Narrows(q, c);
    MulQ31Narrows(d, s);
    QAddSubAreClamped(MulQ31(a, c), MulQ31(b, s));
    QAddSubAreClamped(MulQ31(b, c), MulQ31(a, s));
    QAddSubAreClamped(MulQ31(q, c), MulQ31(d, s));
    assert Park(a, b, s, c) == (d, q);
  }

  /** The error of the second pass: the rotated first-pass errors and two more dropped fractions. */
  lemma SecondPass(a: int, b: int, s: q31, c: q31, d: int, q: int, e1: int, e2: int)
    requires -0x7FFF_FFFD <= a <= 0x7FFF_FFFD && -0x7FFF_FFFD <= b <= 0x7FFF_FFFD
    requires c * c + s * s <= 0x4000_0000_0000_0000
    requires 0 <= e1 <= 0xFFFF_FFFE && -0x7FFF_FFFF <= e2 <= 0x7FFF_FFFF
    requires 0x8000_0000 * (d * c - q * s) == a * (c * c + s * s) - e1 * c + e2 * s
    requires 0x8000_0000 * (q * c + d * s) == b * (c * c + s * s) - e2 * c - e1 * s
    ensures var a', b' := d * c / 0x8000_0000 - q * s / 0x8000_0000,
                          q * c / 0x8000_0000 + d * s / 0x8000_0000;
            var k, one := c * c + s * s, 0x4000_0000_0000_0000;
            -4 * one < one * a' - a * k < 4 * one && -5 * one < one * b' - b * k < 5 * one
  {
    TruncatedPair(d * c, q * s);
    TruncatedPair(q * c, d * s);
    ProductBound(e1, c, 0xFFFF_FFFE, 0x8000_0000);
    ProductBound(e2, s, 0x7FFF_FFFF, 0x8000_0000);
    ProductBound(e2, c, 0x7FFF_FFFF, 0x8000_0000);
    ProductBound(e1, s, 0xFFFF_FFFE, 0x8000_0000);
  }

  /** The errors of the first pass, rotated: by Cauchy-Schwarz at most sqrt(5) < 9/4 units, and sqrt(2) <
      3/2 when one product of each pair is zero. */
  lemma RotatedErrors(e1: int, e2: int, s: q31, c: q31)
    requires 0 <= e1 <= 0xFFFF_FFFE && -0x7FFF_FFFF <= e2 <= 0x7FFF_FFFF
    requires c * c + s * s <= 0x4000_0000_0000_0000
    ensures var r := if e1 <= 0x7FFF_FFFF then 0x6000_0000_0000_0000 else 0x9000_0000_0000_0000;
            -r <= e1 * c - e2 * s <= r && -r <= e2 * c + e1 * s <= r
  {
    var r := if e1 <= 0x7FFF_FFFF then 0x6000_0000_0000_0000 else 0x9000_0000_0000_0000;
    var m := if e1 <= 0x7FFF_FFFF then 0x8000_0000_0000_0000 else 0x1_4000_0000_0000_0000;
    SquareMono(e1, if e1 <= 0x7FFF_FFFF then 0x7FFF_FFFF else 0xFFFF_FFFE);
    SquareMono(e2, 0x7FFF_FFFF);
    SquareNonneg(c);
    SquareNonneg(s);
    assert (-e2) * (-e2) == e2 * e2 && (-e2) * s == -(e2 * s) && (-e2) * c == -(e2 * c);
    RotationIdentity(e1, -e2, s, c);
    var n, k := e1 * e1 + e2 * e2, c * c + s * s;
    Between(n, 0, m, k);
    Between(k, 0, 0x4000_0000_0000_0000, m);
    RootBound(e1 * c - e2 * s, -(e2 * c) - e1 * s, r);
  }

  /** The second pass stays in range: a component within three units of the limit leaves no room for
      the other, so that the errors are smaller just where they would matter. */
  lemma SecondPassInRange(a: int, b: int, s: q31, c: q31, d: int, q: int, e1: int, e2: int)
    requires a * a + b * b <= 0x7FFF_FFFD * 0x7FFF_FFFD && c * c + s * s <= 0x4000_0000_0000_0000
    requires 0 <= e1 <= 0xFFFF_FFFE && -0x7FFF_FFFF <= e2 <= 0x7FFF_FFFF
    requires a == 0 || b == 0 ==> e1 <= 0x7FFF_FFFF
    requires 0x8000_0000 * (d * c - q * s) == a * (c * c + s * s) - e1 * c + e2 * s
    requires 0x8000_0000 * (q * c + d * s) == b * (c * c + s * s) - e2 * c - e1 * s
    ensures -0x8000_0000 <= d * c / 0x8000_0000 - q * s / 0x8000_0000 < 0x8000_0000
    ensures -0x8000_0000 <= q * c / 0x8000_0000 + d * s / 0x8000_0000 < 0x8000_0000
  {
    var k := c * c + s * s;
    SquareNonneg(c);
    SquareNonneg(s);
    RotatedErrors(e1, e2, s, c);
    AxisOrShorter(a, b);
    AxisOrShorter(b, a);
    ScaledComponent(a, k);
    ScaledComponent(b, k);
    TruncatedPair(d * c, q * s);
    TruncatedPair(q * c, d * s);
  }

  lemma AxisOrShorter(a: int, b: int)
    requires a * a + b * b <= 0x7FFF_FFFD * 0x7FFF_FFFD
    ensures -0x7FFF_FFFC <= a <= 0x7FFF_FFFC || (b == 0 && -0x7FFF_FFFD <= a <= 0x7FFF_FFFD)
  {
    RootBound(a, b, 0x7FFF_FFFD);
    if a == 0x7FFF_FFFD || a == -0x7FFF_FFFD {
      SquareNonneg(b);
    }
  }

  lemma ScaledComponent(a: int, k: int)
    requires 0 <= k <= 0x4000_0000_0000_0000
    ensures if a >= 0 then 0 <= a * k <= 0x4000_0000_0000_0000 * a else 0x4000_0000_0000_0000 * a <= a * k <= 0
  {
    if a >= 0 {
      Between(k, 0, 0x4000_0000_0000_0000, a);
    } else {
      Between(k, 0, 0x4000_0000_0000_0000, -a);
      assert k * -a == -(a * k);
    }
  }

  // ---------------------------------------------------------------- Clarke

  function Clarke(ia: q31, ib: q31): (q31, q31) {
    (ia, QAdd(I32(ia * 0x24F3_4E8B / 0x4000_0000), I32(ib * 0x49E6_9D16 / 0x4000_0000)))
  }

  function InvClarke(alpha: q31, beta: q31): (q31, q31) {
    (alpha, QSub(I32(beta * 0x6ED9_EBA1 / 0x8000_0000), I32(alpha * 0x4000_0000 / 0x8000_0000)))
  }

  /** The second input is scaled by more than one before the saturating addition: beyond
      0x6ED9EBA1 its product wraps, and the result is the saturated sum for no such input. */
  lemma ClarkeSaturatesExactlyWhen(ia: q31, ib: q31)
    ensures Clarke(ia, ib).1 == Clamp32(ia * 0x24F3_4E8B / 0x4000_0000 + ib * 0x49E6_9D16 / 0x4000_0000)
            <==> -0x6ED9_EBA1 <= ib <= 0x6ED9_EBA1
    ensures Clarke(ia, ib)
            == (ia, Clamp32(ia * 0x24F3_4E8B / 0x4000_0000 + ib * 0x49E6_9D16 / 0x4000_0000
                            - if ib > 0x6ED9_EBA1 then 0x1_0000_0000
                              else if ib < -0x6ED9_EBA1 then -0x1_0000_0000 else 0))
    ensures ib > 0x6ED9_EBA1 ==> Clarke(ia, ib).1 < 0
    ensures ib < -0x6ED9_EBA1 ==> Clarke(ia, ib).1 > 0
  {
    hide I32, QAdd;
    var p, q := ia * 0x24F3_4E8B / 0x4000_0000, ib * 0x49E6_9D16 / 0x4000_0000;
    NarrowToWord(p, 0);
    if ib > 0x6ED9_EBA1 {
      NarrowToWord(q, 0);
    } else if ib < -0x6ED9_EBA1 {
      NarrowToWord(q + 0x1_0000_0000, -1);
    } else {
      NarrowToWord(q, 0);
    }
    QAddSubAreClamped(I32(p), I32(q));
  }

  /** The inverse for all inputs: the saturated difference of the two truncated products, neither of which
      wraps. */
  lemma InvClarkeIs(alpha: q31, beta: q31)
    ensures InvClarke(alpha, beta)
            == (alpha, Clamp32(beta * 0x6ED9_EBA1 / 0x8000_0000 - alpha * 0x4000_0000 / 0x8000_0000))
  {
    hide I32, QSub;
    var p, q := beta * 0x6ED9_EBA1 / 0x8000_0000, alpha * 0x4000_0000 / 0x8000_0000;
    I32Exact(p);
    I32Exact(q);
    QAddSubAreClamped(p, q);
  }

  /** Inverse after forward, whenever the exact beta fits in 32 bits: the first phase returns exactly
      and the second within [-3, +1] units, exactly for the inputs whose product does not wrap. */
  lemma ClarkeRoundTripExactlyWhen(ia: q31, ib: q31)
    requires -0x8000_0000 <= ia * 0x24F3_4E8B / 0x4000_0000 + ib * 0x49E6_9D16 / 0x4000_0000 < 0x8000_0000
    ensures var (alpha, beta) := Clarke(ia, ib);
            var (ia', ib') := InvClarke(alpha, beta);
            && ia' == ia
            && (-3 <= ib' - ib <= 1 <==> -0x6ED9_EBA1 <= ib <= 0x6ED9_EBA1)
  {
    hide I32, QSub, Clarke;
    ClarkeSaturatesExactlyWhen(ia, ib);
    var beta: int := Clarke(ia, ib).1;
    var p, q := beta * 0x6ED9_EBA1 / 0x8000_0000, ia * 0x4000_0000 / 0x8000_0000;
    assert Clarke(ia, ib).0 == ia by { ClarkeKeepsAlpha(ia, ib); }
    NarrowToWord(p, 0);
    NarrowToWord(q, 0);
    QAddSubAreClamped(p, q);
    if -0x6ED9_EBA1 <= ib <= 0x6ED9_EBA1 {
      ScalesCancel(ia, ib, beta);
    }
  }

  lemma ClarkeKeepsAlpha(ia: q31, ib: q31)
    ensures Clarke(ia, ib).0 == ia
  {
  }

  /** The three constants: sqrt(3)/2 times 1/sqrt(3) is a half and times 2/sqrt(3) is one, up to less
      than half and one unit over the whole range. */
  lemma ScalesCancel(ia: q31, ib: q31, beta: int)
    requires -0x6ED9_EBA1 <= ib <= 0x6ED9_EBA1
    requires beta == ia * 0x24F3_4E8B / 0x4000_0000 + ib * 0x49E6_9D16 / 0x4000_0000
    ensures -3 <= beta * 0x6ED9_EBA1 / 0x8000_0000 - ia * 0x4000_0000 / 0x8000_0000 - ib <= 1
  {
    DroppedFractions(ia * 0x24F3_4E8B, ib * 0x49E6_9D16, beta * 0x6ED9_EBA1);
    HalfByShift(ia);
    CancelWithErrors(ia, ib, beta, beta * 0x6ED9_EBA1 / 0x8000_0000, ia / 2);
  }

  lemma HalfByShift(x: int)
    ensures x * 0x4000_0000 / 0x8000_0000 == x / 2
  {
  }

  lemma CancelWithErrors(ia: int, ib: int, beta: int, p: int, h: int)
    requires -0x8000_0000 <= ia < 0x8000_0000 && -0x6ED9_EBA1 <= ib <= 0x6ED9_EBA1
    requires 0 <= ia * 0x24F3_4E8B + ib * 0x49E6_9D16 - 0x4000_0000 * beta <= 0x7FFF_FFFE
    requires 0 <= beta * 0x6ED9_EBA1 - 0x8000_0000 * p <= 0x7FFF_FFFF
    requires 0 <= ia - 2 * h <= 1
    ensures -3 <= p - h - ib <= 1
  {
    var r := ia * 0x24F3_4E8B + ib * 0x49E6_9D16 - 0x4000_0000 * beta;
    var t := beta * 0x6ED9_EBA1 - 0x8000_0000 * p;
    var m := ia - 2 * h;
    assert 0x2000_0000_0000_0000 * (p - h - ib)
        == -470_745_493 * ia - 941_490_986 * ib - 0x6ED9_EBA1 * r - 0x4000_0000 * t + 0x1000_0000_0000_0000 * m;
  }

  lemma DroppedFractions(x: int, y: int, z: int)
    ensures 0 <= x + y - 0x4000_0000 * (x / 0x4000_0000 + y / 0x4000_0000) <= 0x7FFF_FFFE
    ensures 0 <= z - 0x8000_0000 * (z / 0x8000_0000) <= 0x7FFF_FFFF
  {
  }
}
