/**
 * CIE colorimetry (Lab, LCHab and XYZ under an illuminant), RGB spaces with their
 * gamma curves, 8-bit quantisation and the hex colour codec.
 */
module Colorspace {
  import opened Results
  import opened JsBuiltins
  import opened Arithmetic

  // ---------------------------------------------------------------- Lab and the function f

  const CONST1: real := 216.0 / 24389.0
  const CONST2: real := 24389.0 / 27.0 / 116.0
  const CONST3: real := 16.0 / 116.0
  const DELTA: real := 6.0 / 29.0
  const CONST4: real := 3.0 * DELTA * DELTA
  /** The exponent the library passes to Math.pow for a cube root. */
  const ONE_THIRD: real := 0.3333333333333333

  function Cube(x: real): real { x * x * x }

  /**
   * The compression f of CIE Lab: a cube root above the knee CONST1, the tangent line
   * CONST2 · x + CONST3 at and below it.
   */
  function FunctionF(m: Transcendental, x: real): real
  {
    if x > CONST1 then m.pow(x, ONE_THIRD) else CONST2 * x + CONST3
  }

  /**
   * The inverse of f as the library writes it inside lToY and labToXyz: the cube above
   * the knee DELTA, the inverse of the tangent line at and below it.
   */
  function FInverse(f: real): real
  {
    if f > DELTA then Cube(f) else (f - CONST3) * CONST4
  }

  /** The knee of f in the XYZ domain is the cube of its knee in the Lab domain. */
  lemma KneeIsCube()
    ensures Cube(DELTA) == CONST1
    ensures CONST2 * CONST1 + CONST3 == DELTA
    ensures CONST2 * CONST4 == 1.0
  {
  }

  /** Math.pow(x, 0.3333333333333333) is taken to be a cube root of x for positive x. */
  ghost predicate PowIsCubeRoot(m: Transcendental)
  {
    forall x: real {:trigger m.pow(x, ONE_THIRD)} :: x > 0.0 ==> Cube(m.pow(x, ONE_THIRD)) == x
  }

  lemma PositiveProduct(a: real, b: real)
    requires a > 0.0 && b > 0.0
    ensures a * b > 0.0
  {
  }

  /** Cubing is strictly increasing: across 0 by the signs, on either side by the factorisation. */
  lemma {:induction false} CubeMonotone(a: real, b: real)
    requires a < b
    ensures Cube(a) < Cube(b)
  {
    if a < 0.0 < b {
      CubeSign(a);
      CubeSign(b);
    } else if 0.0 <= a {
      CubeMonotoneNonNegative(a, b);
    } else {
      CubeMonotoneNonNegative(-b, -a);
      CubeOdd(a);
      CubeOdd(b);
    }
  }

  /** For 0 <= a < b, b³ - a³ = (b - a)(a² + ab + b²) with both factors positive. */
  lemma CubeMonotoneNonNegative(a: real, b: real)
    requires 0.0 <= a < b
    ensures Cube(a) < Cube(b)
  {
    var s := a * a + a * b + b * b;
    assert Cube(b) - Cube(a) == (b - a) * s;
    NonNegativeProduct(a, a);
    NonNegativeProduct(a, b);
    PositiveProduct(b, b);
    PositiveProduct(b - a, s);
  }

  /** A cube has the sign of its base. */
  lemma CubeSign(x: real)
    ensures x > 0.0 ==> Cube(x) > 0.0
    ensures x < 0.0 ==> Cube(x) < 0.0
  {
  }

  lemma CubeOdd(x: real)
    ensures Cube(-x) == -Cube(x)
  {
  }

  lemma CubeInjective(a: real, b: real)
    requires Cube(a) == Cube(b)
    ensures a == b
  {
    if a < b { CubeMonotone(a, b); }
    if b < a { CubeMonotone(b, a); }
  }

  /** FInverse undoes f, when Math.pow gives cube roots. */
  lemma {:induction false} FInverseOfF(m: Transcendental, x: real)
    requires PowIsCubeRoot(m)
    ensures FInverse(FunctionF(m, x)) == x
  {
    KneeIsCube();
    if x > CONST1 {
      var f := m.pow(x, ONE_THIRD);
      assert Cube(f) == x;
      if f <= DELTA {
        if f < DELTA { CubeMonotone(f, DELTA); }
        assert false;
      }
    } else {
      var f := CONST2 * x + CONST3;
      assert f - CONST3 == CONST2 * x;
      assert CONST2 * x <= CONST2 * CONST1;
    }
  }

  /** f undoes FInverse, when Math.pow gives cube roots. */
  lemma {:induction false} FOfFInverse(m: Transcendental, f: real)
    requires PowIsCubeRoot(m)
    ensures FunctionF(m, FInverse(f)) == f
  {
    KneeIsCube();
    if f > DELTA {
      CubeMonotone(DELTA, f);
      var g := m.pow(Cube(f), ONE_THIRD);
      assert Cube(g) == Cube(f);
      CubeInjective(g, f);
    } else {
      var y := (f - CONST3) * CONST4;
      assert f - CONST3 <= DELTA - CONST3;
      assert y <= (DELTA - CONST3) * CONST4;
      assert CONST2 * y == f - CONST3;
    }
  }

  /** [L*, a*, b*] to [L*, C*ab, hab] with hab in degrees, reduced into [0, 360). */
  function LabToLchab(m: Transcendental, lstar: real, astar: real, bstar: real): (r: Vec3)
    ensures r.x0 == lstar && 0.0 <= r.x2 < 360.0
    ensures r.x1 == m.sqrt(astar * astar + bstar * bstar)
  {
    var p := CartesianToPolar(m, astar, bstar, 360.0);
    Vec3(lstar, p.x0, p.x1)
  }

  /** [L*, C*ab, hab] to [L*, a*, b*]; zero chroma lands on the neutral axis whatever the hue. */
  function LchabToLab(m: Transcendental, lstar: real, cstarab: real, hab: real): (r: Vec3)
    ensures r.x0 == lstar
    ensures cstarab == 0.0 ==> r.x1 == 0.0 && r.x2 == 0.0
  {
    var p := PolarToCartesian(m, cstarab, hab, 360.0);
    Vec3(lstar, p.x0, p.x1)
  }

  // ---------------------------------------------------------------- illuminants

  /** A white point (Y = 1) with the Bradford adaptation matrices from and to illuminant C. */
  datatype Illuminant = Illuminant(X: real, Z: real, catMatrixCToThis: Mat33, catMatrixThisToC: Mat33)

  const ILLUMINANT_D65: Illuminant := Illuminant(
    0.950428061568676,
    1.08891545904089,
    Mat33(
      Vec3(0.9904112147597705, -0.00718628493839008, -0.011587161829988951),
      Vec3(-0.012395677058354078, 1.01560663662526, -0.0029181533414322086),
      Vec3(-0.003558889496942143, 0.006762494889396557, 0.9182865019746504)),
    Mat33(
      Vec3(1.0098158523233767, 0.007060316533713093, 0.012764537821734395),
      Vec3(0.012335983421444891, 0.9846986027789835, 0.003284857773421468),
      Vec3(0.003822773174044815, -0.007224207660971385, 1.0890100329203007)))

  const ILLUMINANT_C: Illuminant := Illuminant(
    0.9807171421603395,
    1.182248923134197,
    IDENTITY,
    IDENTITY)

  /** Both predefined white points have positive X and Z, so XYZ can be divided by them. */
  predicate PositiveWhite(illuminant: Illuminant)
  {
    illuminant.X > 0.0 && illuminant.Z > 0.0
  }

  // ---------------------------------------------------------------- Lab <-> XYZ

  /** The relative luminance Y of a lightness L*. */
  function LToY(lstar: real): real
  {
    FInverse((lstar + 16.0) / 116.0)
  }

  /** Black has luminance 0 and L* = 100 has luminance 1. */
  lemma LToYEnds()
    ensures LToY(0.0) == 0.0 && LToY(100.0) == 1.0
  {
    assert (0.0 + 16.0) / 116.0 == CONST3;
  }

  /** A higher lightness always has a higher luminance: the two branches of FInverse meet at DELTA. */
  lemma {:induction false} LToYStrictlyIncreasing(l1: real, l2: real)
    requires l1 < l2
    ensures LToY(l1) < LToY(l2)
  {
    var f1, f2 := (l1 + 16.0) / 116.0, (l2 + 16.0) / 116.0;
    assert f1 < f2;
    KneeIsCube();
    assert (DELTA - CONST3) * CONST4 == Cube(DELTA);
    assert LToY(l1) == FInverse(f1) && LToY(l2) == FInverse(f2);
    if f1 > DELTA {
      CubeMonotone(f1, f2);
      assert FInverse(f1) == Cube(f1) && FInverse(f2) == Cube(f2);
    } else if f2 > DELTA {
      assert FInverse(f1) <= (DELTA - CONST3) * CONST4;
      CubeMonotone(DELTA, f2);
      assert FInverse(f2) == Cube(f2);
    } else {
      assert (f2 - CONST3) - (f1 - CONST3) == f2 - f1;
      PositiveProduct(f2 - f1, CONST4);
    }
  }

  /** CIE Lab to XYZ under the given white point. */
  function LabToXyz(lstar: real, astar: real, bstar: real, illuminant: Illuminant := ILLUMINANT_D65): (r: Vec3)
    ensures r.x1 == LToY(lstar)
    ensures astar == 0.0 && bstar == 0.0 ==> r.x0 == r.x1 * illuminant.X && r.x2 == r.x1 * illuminant.Z
  {
    var fy := (lstar + 16.0) / 116.0;
    var fx := fy + astar * 0.002;
    var fz := fy - bstar * 0.005;
    Vec3(FInverse(fx) * illuminant.X, FInverse(fy), FInverse(fz) * illuminant.Z)
  }

  /** Reference white: L* = 100 with a* = b* = 0 is the white point itself, here for illuminant C. */
  lemma WhiteOfIlluminantC()
    ensures LabToXyz(100.0, 0.0, 0.0, ILLUMINANT_C) == Vec3(ILLUMINANT_C.X, 1.0, ILLUMINANT_C.Z)
  {
  }

  /** XYZ to CIE Lab under the given white point. */
  function XyzToLab(m: Transcendental, X: real, Y: real, Z: real, illuminant: Illuminant := ILLUMINANT_D65): (r: Vec3)
    requires PositiveWhite(illuminant)
    ensures X == illuminant.X * Y && Z == illuminant.Z * Y ==> r.x1 == 0.0 && r.x2 == 0.0
  {
    var fX, fY, fZ := FunctionF(m, X / illuminant.X), FunctionF(m, Y), FunctionF(m, Z / illuminant.Z);
    assert X == illuminant.X * Y ==> X / illuminant.X == Y;
    assert Z == illuminant.Z * Y ==> Z / illuminant.Z == Y;
    Vec3(116.0 * fY - 16.0, 500.0 * (fX - fY), 200.0 * (fY - fZ))
  }

  /** LabToXyz in terms of the three f values it inverts. */
  lemma LabToXyzOfF(lstar: real, astar: real, bstar: real, illuminant: Illuminant)
    ensures LabToXyz(lstar, astar, bstar, illuminant)
         == Vec3(FInverse((lstar + 16.0) / 116.0 + astar * 0.002) * illuminant.X,
                 FInverse((lstar + 16.0) / 116.0),
                 FInverse((lstar + 16.0) / 116.0 - bstar * 0.005) * illuminant.Z)
  {
  }

  /** XyzToLab in terms of the three f values it computes. */
  lemma XyzToLabOfF(m: Transcendental, X: real, Y: real, Z: real, illuminant: Illuminant, fx: real, fy: real, fz: real)
    requires PositiveWhite(illuminant)
    requires fx == FunctionF(m, X / illuminant.X) && fy == FunctionF(m, Y) && fz == FunctionF(m, Z / illuminant.Z)
    ensures XyzToLab(m, X, Y, Z, illuminant) == Vec3(116.0 * fy - 16.0, 500.0 * (fx - fy), 200.0 * (fy - fz))
  {
  }

  /** u = x / d scales back to x. */
  lemma ScaleBack(u: real, x: real, d: real)
    requires d != 0.0 && u == x / d
    ensures u * d == x
  {
  }

  /** x = u · d divides back to u. */
  lemma DivideBack(u: real, x: real, d: real)
    requires d != 0.0 && x == u * d
    ensures x / d == u
  {
  }

  /** The Lab coordinates made of three f values go back, through FInverse, to the XYZ they came from. */
  lemma LabOfFReadsBack(X: real, Y: real, Z: real, illuminant: Illuminant, fX: real, fY: real, fZ: real)
    requires PositiveWhite(illuminant)
    requires FInverse(fX) == X / illuminant.X && FInverse(fY) == Y && FInverse(fZ) == Z / illuminant.Z
    ensures var lab := Vec3(116.0 * fY - 16.0, 500.0 * (fX - fY), 200.0 * (fY - fZ));
      LToY(lab.x0) == Y && LabToXyz(lab.x0, lab.x1, lab.x2, illuminant) == Vec3(X, Y, Z)
  {
    ScaleBack(FInverse(fX), X, illuminant.X);
    ScaleBack(FInverse(fZ), Z, illuminant.Z);
    LabOfF(fX, fY, fZ);
    XyzOfFValues(116.0 * fY - 16.0, 500.0 * (fX - fY), 200.0 * (fY - fZ), illuminant, fX, fY, fZ, X, Z);
  }

  /** The three f values can be read off the Lab coordinates made of them. */
  lemma LabOfF(fX: real, fY: real, fZ: real)
    ensures var lstar := 116.0 * fY - 16.0;
      && (lstar + 16.0) / 116.0 == fY
      && (lstar + 16.0) / 116.0 + (500.0 * (fX - fY)) * 0.002 == fX
      && (lstar + 16.0) / 116.0 - (200.0 * (fY - fZ)) * 0.005 == fZ
  {
  }

  /** LabToXyz of coordinates whose f values are fx, fy, fz, with the scaled ends already known. */
  lemma XyzOfFValues(lstar: real, astar: real, bstar: real, illuminant: Illuminant, fx: real, fy: real, fz: real, X: real, Z: real)
    requires (lstar + 16.0) / 116.0 == fy && fy + astar * 0.002 == fx && fy - bstar * 0.005 == fz
    requires FInverse(fx) * illuminant.X == X && FInverse(fz) * illuminant.Z == Z
    ensures LToY(lstar) == FInverse(fy)
    ensures LabToXyz(lstar, astar, bstar, illuminant) == Vec3(X, FInverse(fy), Z)
  {
  }

  /** LabToXyz inverts XyzToLab (so LToY inverts its L*), when Math.pow gives cube roots. */
  lemma {:induction false} XyzToLabToXyz(m: Transcendental, X: real, Y: real, Z: real, illuminant: Illuminant)
    requires PowIsCubeRoot(m) && PositiveWhite(illuminant)
    ensures var lab := XyzToLab(m, X, Y, Z, illuminant);
      LToY(lab.x0) == Y && LabToXyz(lab.x0, lab.x1, lab.x2, illuminant) == Vec3(X, Y, Z)
  {
    var fX, fY, fZ := FunctionF(m, X / illuminant.X), FunctionF(m, Y), FunctionF(m, Z / illuminant.Z);
    XyzToLabOfF(m, X, Y, Z, illuminant, fX, fY, fZ);
    FInverseOfF(m, X / illuminant.X);
    FInverseOfF(m, Y);
    FInverseOfF(m, Z / illuminant.Z);
    LabOfFReadsBack(X, Y, Z, illuminant, fX, fY, fZ);
  }

  /** XyzToLab inverts LabToXyz, when Math.pow gives cube roots. */
  lemma {:induction false} LabToXyzToLab(m: Transcendental, lstar: real, astar: real, bstar: real, illuminant: Illuminant)
    requires PowIsCubeRoot(m) && PositiveWhite(illuminant)
    ensures var xyz := LabToXyz(lstar, astar, bstar, illuminant);
      XyzToLab(m, xyz.x0, xyz.x1, xyz.x2, illuminant) == Vec3(lstar, astar, bstar)
  {
    var fy := (lstar + 16.0) / 116.0;
    var fx := fy + astar * 0.002;
    var fz := fy - bstar * 0.005;
    LabToXyzOfF(lstar, astar, bstar, illuminant);
    var xyz := LabToXyz(lstar, astar, bstar, illuminant);
    DivideBack(FInverse((lstar + 16.0) / 116.0 + astar * 0.002), xyz.x0, illuminant.X);
    DivideBack(FInverse((lstar + 16.0) / 116.0 - bstar * 0.005), xyz.x2, illuminant.Z);
    FOfFInverse(m, fx);
    FOfFInverse(m, fy);
    FOfFInverse(m, fz);
    XyzToLabOfF(m, xyz.x0, xyz.x1, xyz.x2, illuminant, fx, fy, fz);
  }

  // ---------------------------------------------------------------- RGB spaces

  /** x ↦ sign(x) · |x|^(1/gamma): undoes a pure gamma curve. */
  function CreateLinearizer(m: Transcendental, gamma: real): (f: real -> real)
    requires gamma != 0.0
  {
    var reciprocal := 1.0 / gamma;
    x => if x >= 0.0 then m.pow(x, reciprocal) else -m.pow(-x, reciprocal)
  }

  /** x ↦ sign(x) · |x|^gamma: a pure gamma curve, extended to negative x by odd symmetry. */
  function CreateDelinearizer(m: Transcendental, gamma: real): (f: real -> real)
  {
    x => if x >= 0.0 then m.pow(x, gamma) else -m.pow(-x, gamma)
  }

  /** Both curves are odd away from 0 (at 0 they give Math.pow(0, ·)). */
  lemma GammaCurvesOdd(m: Transcendental, gamma: real, x: real)
    requires gamma != 0.0 && x != 0.0
    ensures CreateLinearizer(m, gamma)(-x) == -CreateLinearizer(m, gamma)(x)
    ensures CreateDelinearizer(m, gamma)(-x) == -CreateDelinearizer(m, gamma)(x)
  {
  }

  /** Math.pow(·, 1/gamma) undoes Math.pow(·, gamma) on non-negative numbers and keeps their sign. */
  ghost predicate PowInvertible(m: Transcendental, gamma: real)
    requires gamma != 0.0
  {
    forall x: real {:trigger m.pow(x, gamma)} :: x >= 0.0 ==>
      m.pow(x, gamma) >= 0.0 && (x > 0.0 ==> m.pow(x, gamma) > 0.0) && m.pow(m.pow(x, gamma), 1.0 / gamma) == x
  }

  /** The linearizer undoes the delinearizer everywhere, positive and negative, given PowInvertible. */
  lemma {:induction false} GammaRoundTrip(m: Transcendental, gamma: real, x: real)
    requires gamma != 0.0 && PowInvertible(m, gamma)
    ensures CreateLinearizer(m, gamma)(CreateDelinearizer(m, gamma)(x)) == x
  {
    var y := CreateDelinearizer(m, gamma)(x);
    if x >= 0.0 {
      assert y == m.pow(x, gamma) && y >= 0.0;
    } else {
      assert m.pow(-x, gamma) > 0.0;
      assert y == -m.pow(-x, gamma) && y < 0.0;
      assert -y == m.pow(-x, gamma);
    }
  }

  /**
   * An RGB space: its matrices to and from XYZ, its transfer curves (the linearizer maps
   * gamma-corrected values to linear ones) and its white point.
   */
  datatype RgbSpace = RgbSpace(
    matrixThisToXyz: Mat33,
    matrixXyzToThis: Mat33,
    linearizer: real -> real,
    delinearizer: real -> real,
    illuminant: Illuminant)

  const CONST5: real := 0.0031308 * 12.92

  /** The sRGB transfer curve to linear light, extended to negative values by odd symmetry (bg-sRGB). */
  function SrgbLinearize(m: Transcendental, x: real): real
  {
    if x > CONST5 then m.pow((0.055 + x) / 1.055, 2.4)
    else if x < -CONST5 then -m.pow((0.055 - x) / 1.055, 2.4)
    else x / 12.92
  }

  /** The sRGB gamma curve from linear light, extended to negative values by odd symmetry (bg-sRGB). */
  function SrgbDelinearize(m: Transcendental, x: real): real
  {
    if x > 0.0031308 then m.pow(x, 1.0 / 2.4) * 1.055 - 0.055
    else if x < -0.0031308 then -m.pow(-x, 1.0 / 2.4) * 1.055 + 0.055
    else x * 12.92
  }

  /** Both sRGB curves are odd functions, as bg-sRGB extends them. */
  lemma SrgbCurvesOdd(m: Transcendental, x: real)
    ensures SrgbLinearize(m, -x) == -SrgbLinearize(m, x)
    ensures SrgbDelinearize(m, -x) == -SrgbDelinearize(m, x)
  {
  }

  /**
   * On the linear segments the sRGB curves invert each other exactly: the segment
   * |x| <= 0.0031308 of linear light is mapped onto |y| <= CONST5 and back.
   */
  lemma SrgbLinearSegmentRoundTrip(m: Transcendental, x: real, y: real)
    ensures -0.0031308 <= x <= 0.0031308 ==> SrgbLinearize(m, SrgbDelinearize(m, x)) == x
    ensures -CONST5 <= y <= CONST5 ==> SrgbDelinearize(m, SrgbLinearize(m, y)) == y
  {
  }

  function SRGB(m: Transcendental): RgbSpace
  {
    RgbSpace(
      Mat33(
        Vec3(0.4124319639872968, 0.3575780371782625, 0.1804592355313134),
        Vec3(0.21266023143094992, 0.715156074356525, 0.07218369421252536),
        Vec3(0.01933274831190452, 0.11919267905942081, 0.9504186404649174)),
      Mat33(
        Vec3(3.240646461582504, -1.537229731776316, -0.49856099408961585),
        Vec3(-0.969260718909152, 1.876000564872059, 0.04155578980259398),
        Vec3(0.05563672378977863, -0.2040013205625215, 1.0570977520057931)),
      x => SrgbLinearize(m, x),
      x => SrgbDelinearize(m, x),
      ILLUMINANT_D65)
  }

  /** Adobe RGB (1998): a pure gamma of 563/256, so linearizing raises to that power. */
  const ADOBE_GAMMA: real := 563.0 / 256.0

  function ADOBE_RGB(m: Transcendental): RgbSpace
  {
    RgbSpace(
      Mat33(
        Vec3(0.5766645233146432, 0.18556215235063508, 0.18820138590339738),
        Vec3(0.29734264483411293, 0.6273768008045281, 0.07528055436135896),
        Vec3(0.027031149530373878, 0.07069034375262295, 0.991193965757893)),
      Mat33(
        Vec3(2.0416039047109305, -0.5650114025085637, -0.3447340526026908),
        Vec3(-0.969223190031607, 1.8759279278672774, 0.04155418080089159),
        Vec3(0.01344622799042258, -0.11837953662156253, 1.015322039041507)),
      CreateDelinearizer(m, ADOBE_GAMMA),
      CreateLinearizer(m, ADOBE_GAMMA),
      ILLUMINANT_D65)
  }

  function XyzToLinearRgb(X: real, Y: real, Z: real, rgbSpace: RgbSpace): Vec3
  {
    MultMatrixVector(rgbSpace.matrixXyzToThis, Vec3(X, Y, Z))
  }

  function LinearRgbToXyz(lr: real, lg: real, lb: real, rgbSpace: RgbSpace): Vec3
  {
    MultMatrixVector(rgbSpace.matrixThisToXyz, Vec3(lr, lg, lb))
  }

  /**
   * XYZ to linear RGB and back applies the product of the space's two matrices, so the
   * round trip is exact exactly as far as that product is the identity.
   */
  lemma XyzLinearRgbRoundTrip(X: real, Y: real, Z: real, rgbSpace: RgbSpace)
    ensures var v := XyzToLinearRgb(X, Y, Z, rgbSpace);
      LinearRgbToXyz(v.x0, v.x1, v.x2, rgbSpace)
        == MultMatrixVector(MultMatrixMatrix(rgbSpace.matrixThisToXyz, rgbSpace.matrixXyzToThis), Vec3(X, Y, Z))
  {
    MultMatrixMatrixVector(rgbSpace.matrixThisToXyz, rgbSpace.matrixXyzToThis, Vec3(X, Y, Z));
  }

  function LinearRgbToRgb(lr: real, lg: real, lb: real, rgbSpace: RgbSpace): Vec3
  {
    Vec3(rgbSpace.delinearizer(lr), rgbSpace.delinearizer(lg), rgbSpace.delinearizer(lb))
  }

  function RgbToLinearRgb(r: real, g: real, b: real, rgbSpace: RgbSpace): Vec3
  {
    Vec3(rgbSpace.linearizer(r), rgbSpace.linearizer(g), rgbSpace.linearizer(b))
  }

  /** In Adobe RGB, gamma-corrected to linear and back is the identity, given PowInvertible. */
  lemma {:induction false} AdobeRgbRoundTrip(m: Transcendental, r: real, g: real, b: real)
    requires PowInvertible(m, ADOBE_GAMMA)
    ensures var l := RgbToLinearRgb(r, g, b, ADOBE_RGB(m));
      LinearRgbToRgb(l.x0, l.x1, l.x2, ADOBE_RGB(m)) == Vec3(r, g, b)
  {
    GammaRoundTrip(m, ADOBE_GAMMA, r);
    GammaRoundTrip(m, ADOBE_GAMMA, g);
    GammaRoundTrip(m, ADOBE_GAMMA, b);
  }

  // ---------------------------------------------------------------- 8-bit quantisation

  predicate IsInteger(x: real) { x == x.Floor as real }

  /** One channel of rgbToRgb255: Math.round(x · 255), optionally clamped into [0, 255]. */
  function Quantize(x: real, clamp: bool): (q: real)
    ensures IsInteger(q)
    ensures clamp ==> 0.0 <= q <= 255.0
    ensures !clamp || 0 <= Round(x * 255.0) <= 255 ==> x * 255.0 - 0.5 < q <= x * 255.0 + 0.5
    ensures clamp && Round(x * 255.0) < 0 ==> q == 0.0
    ensures clamp && Round(x * 255.0) > 255 ==> q == 255.0
  {
    var n := Round(x * 255.0) as real;
    if clamp then Max(Min(n, 255.0), 0.0) else n
  }

  function RgbToRgb255(r: real, g: real, b: real, clamp: bool := true): Vec3
  {
    Vec3(Quantize(r, clamp), Quantize(g, clamp), Quantize(b, clamp))
  }

  function Rgb255ToRgb(r255: real, g255: real, b255: real): Vec3
  {
    Vec3(r255 / 255.0, g255 / 255.0, b255 / 255.0)
  }

  function ClampByte(n: int): real
  {
    if n < 0 then 0.0 else if n > 255 then 255.0 else n as real
  }

  /**
   * Integer channel values survive rgb255ToRgb then rgbToRgb255: unchanged without
   * clamping, clamped into [0, 255] with it.
   */
  lemma QuantizeRoundTrip(n0: int, n1: int, n2: int, clamp: bool)
    ensures var v := Rgb255ToRgb(n0 as real, n1 as real, n2 as real);
      RgbToRgb255(v.x0, v.x1, v.x2, clamp)
        == if clamp then Vec3(ClampByte(n0), ClampByte(n1), ClampByte(n2))
           else Vec3(n0 as real, n1 as real, n2 as real)
  {
    RoundOfInteger(n0);
    RoundOfInteger(n1);
    RoundOfInteger(n2);
    assert n0 as real / 255.0 * 255.0 == n0 as real;
    assert n1 as real / 255.0 * 255.0 == n1 as real;
    assert n2 as real / 255.0 * 255.0 == n2 as real;
  }

  // ---------------------------------------------------------------- hex codes

  predicate IsLowerHex(s: string)
  {
    forall i :: 0 <= i < |s| ==> IsHexDigit(s[i]) && !('A' <= s[i] <= 'F')
  }

  /**
   * One channel of rgbToHex: the rounded, clamped byte as two lower-case hex digits. The
   * byte is the one rgbToRgb255 computes with clamping, although the library writes the
   * clamp in the other order.
   */
  function HexByte(x: real): (s: string)
    ensures |s| == 2 && IsLowerHex(s) && AllHexDigits(s)
    ensures HexNumeralValue(s) as real == Quantize(x, true)
  {
    var c := Clamp(Round(x * 255.0) as real, 0.0, 255.0);
    assert Quantize(x, true) == c;
    ByteHex(c.Floor)
  }

  /** A byte as two lower-case hex digits: toString(16), with a '0' in front of a single digit. */
  function ByteHex(n: nat): (s: string)
    requires n < 256
    ensures |s| == 2 && IsLowerHex(s) && AllHexDigits(s) && HexNumeralValue(s) == n
  {
    var hex := ToHexString(n);
    ToHexStringValue(n);
    if |hex| == 1 then
      LeadingZeroHex(hex);
      "0" + hex
    else
      hex
  }

  lemma LeadingZeroHex(hex: string)
    requires |hex| == 1 && AllHexDigits(hex)
    ensures AllHexDigits("0" + hex) && HexNumeralValue("0" + hex) == HexNumeralValue(hex)
  {
    var s := "0" + hex;
    assert s[1] == hex[0] && s[..1] == "0";
  }

  /** '#' followed by the three channel bytes in lower-case hex. */
  function RgbToHex(r: real, g: real, b: real): (s: string)
    ensures |s| == 7 && s[0] == '#' && IsLowerHex(s[1..])
    ensures AllHexDigits(s[1..3]) && AllHexDigits(s[3..5]) && AllHexDigits(s[5..7])
    ensures HexNumeralValue(s[1..3]) as real == Quantize(r, true)
    ensures HexNumeralValue(s[3..5]) as real == Quantize(g, true)
    ensures HexNumeralValue(s[5..7]) as real == Quantize(b, true)
  {
    var hr, hg, hb := HexByte(r), HexByte(g), HexByte(b);
    HexCodeParts(hr, hg, hb);
    "#" + hr + hg + hb
  }

  /** '#' and three lower-case pairs make a seven-character code whose pairs are read back in place. */
  lemma HexCodeParts(hr: string, hg: string, hb: string)
    requires |hr| == 2 && |hg| == 2 && |hb| == 2
    requires IsLowerHex(hr) && IsLowerHex(hg) && IsLowerHex(hb)
    ensures var s := "#" + hr + hg + hb;
      && |s| == 7 && s[0] == '#' && IsLowerHex(s[1..])
      && s[1..3] == hr && s[3..5] == hg && s[5..7] == hb
      && AllHexDigits(s[1..3]) && AllHexDigits(s[3..5]) && AllHexDigits(s[5..7])
  {
    var s := "#" + hr + hg + hb;
    assert s[1..3] == hr && s[3..5] == hg && s[5..7] == hb;
    assert forall i :: 0 <= i < 6 ==> s[1..][i] == (if i < 2 then hr[i] else if i < 4 then hg[i - 2] else hb[i - 4]);
  }

  /**
   * '#XXXXXX', '#XXX', '#XXXXXXXX' or '#XXXX' to [r, g, b] in [0, 1]: the digits after the
   * first character are read by parseInt(_, 16) and the channels cut out of that number by
   * shifts and masks (the alpha digits of the long forms are ignored); any other length is
   * a SyntaxError.
   */
  function HexToRgb(hex: string): (r: Result<Vec3>)
    ensures r.Fail? <==> |hex| !in {4, 5, 7, 9}
    ensures r.Fail? ==> r.error == SyntaxError
    ensures r.Ok? && (|hex| == 7 || |hex| == 9) ==> 0.0 <= r.value.x0 <= 1.0 && 0.0 <= r.value.x1 <= 1.0 && 0.0 <= r.value.x2 <= 1.0
    ensures r.Ok? && (|hex| == 4 || |hex| == 5) ==> 0.0 <= r.value.x0 <= 1.0 && 0.0 <= r.value.x1 <= 1.0 && 0.0 <= r.value.x2 <= 1.0
  {
    var num := ParseInt16(if hex == [] then [] else hex[1..]);
    if |hex| == 7 then
      Ok(Vec3(BitField(num, 16, 8) as real / 255.0, BitField(num, 8, 8) as real / 255.0, BitField(num, 0, 8) as real / 255.0))
    else if |hex| == 4 then
      Ok(Vec3(BitField(num, 8, 4) as real / 15.0, BitField(num, 4, 4) as real / 15.0, BitField(num, 0, 4) as real / 15.0))
    else if |hex| == 9 then
      Ok(Vec3(BitField(num, 24, 8) as real / 255.0, BitField(num, 16, 8) as real / 255.0, BitField(num, 8, 8) as real / 255.0))
    else if |hex| == 5 then
      Ok(Vec3(BitField(num, 12, 4) as real / 15.0, BitField(num, 8, 4) as real / 15.0, BitField(num, 4, 4) as real / 15.0))
    else
      Fail(SyntaxError)
  }
}
