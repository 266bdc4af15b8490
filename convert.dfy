/**
 * The forward conversion of munsell.js: Munsell HVC (hue in R/100Z, value in [0, 10],
 * chroma >= 0) to CIE LCHab under illuminant C, by four nested interpolations over the
 * Munsell Renotation Data, and the pipelines from there to Lab, XYZ, RGB and hex codes.
 *
 * Inside the engine hue is counted in 40 sectors (hue40), chroma in halves (halfChroma)
 * and, for dark colours (value < 1), value in fifths (scaledValue = 5 · value).
 */
module Convert {
  import opened Results
  import opened JsBuiltins
  import opened Arithmetic
  import opened Colorspace

  // ---------------------------------------------------------------- Munsell value

  /** Munsell value to luminance Y, the fifth-order polynomial of ASTM D1535. */
  function MunsellValueToY(v: real): real
  {
    v * (1.1914 + v * (-0.22533 + v * (0.23352 + v * (-0.020484 + v * 0.00081939)))) * 0.01
  }

  /** Munsell value to lightness L*. */
  function MunsellValueToL(m: Transcendental, v: real): real
  {
    116.0 * FunctionF(m, MunsellValueToY(v)) - 16.0
  }

  /** The polynomial sends value 0 to black and value 10 to white, exactly. */
  lemma MunsellValueToYEnds()
    ensures MunsellValueToY(0.0) == 0.0 && MunsellValueToY(10.0) == 1.0
  {
  }

  /** Value 0 has L* = 0, and value 10 has L* = 100 when Math.pow gives cube roots. */
  lemma MunsellValueToLEnds(m: Transcendental)
    ensures MunsellValueToL(m, 0.0) == 0.0
    ensures PowIsCubeRoot(m) ==> MunsellValueToL(m, 10.0) == 100.0
  {
    MunsellValueToYEnds();
    KneeIsCube();
    if PowIsCubeRoot(m) {
      var f := m.pow(1.0, ONE_THIRD);
      assert Cube(f) == Cube(1.0);
      CubeInjective(f, 1.0);
    }
  }

  /** lToY undoes munsellValueToL: the lightness of a value has the luminance of that value. */
  lemma LToYOfMunsellValue(m: Transcendental, v: real)
    requires PowIsCubeRoot(m)
    ensures LToY(MunsellValueToL(m, v)) == MunsellValueToY(v)
  {
    var y := MunsellValueToY(v);
    assert (MunsellValueToL(m, v) + 16.0) / 116.0 == FunctionF(m, y);
    FInverseOfF(m, y);
  }

  // ---------------------------------------------------------------- the renotation data

  /**
   * The Munsell Renotation Data as the engine reads it. lTable[v] is the L* of value v
   * (v = 0, 1, ..., 10) and lTableDark[v] that of value v/5 (v = 0, 1, ..., 5).
   * chTable[h][v][k] is the [C*ab, hab] of hue sector h (h = 0, ..., 39), value v and
   * chroma 2k (k = 0, ..., 25), and chTableDark likewise for the dark values.
   */
  datatype Renotation = Renotation(
    lTable: seq<real>,
    chTable: seq<seq<seq<Vec2>>>,
    lTableDark: seq<real>,
    chTableDark: seq<seq<seq<Vec2>>>)
  {
    /**
     * The dimensions the engine indexes, L* strictly increasing in value (so the value
     * interpolation never divides by zero), C*ab non-negative and hab reduced into [0, 360).
     */
    predicate Valid()
    {
      && |lTable| == Levels(false) && Increasing(lTable) && ValidHues(chTable, Levels(false))
      && |lTableDark| == Levels(true) && Increasing(lTableDark) && ValidHues(chTableDark, Levels(true))
    }
  }

  /** Number of value levels in the bright (0..10) and dark (0, 0.2, ..., 1) tables. */
  function Levels(dark: bool): nat { if dark then 6 else 11 }

  predicate Increasing(l: seq<real>)
  {
    forall i, j :: 0 <= i < j < |l| ==> l[i] < l[j]
  }

  predicate ValidHues(t: seq<seq<seq<Vec2>>>, levels: nat)
  {
    |t| == 40 && forall h :: 0 <= h < 40 ==> ValidSheet(t[h], levels)
  }

  predicate ValidSheet(sheet: seq<seq<Vec2>>, levels: nat)
  {
    |sheet| == levels && forall v :: 0 <= v < levels ==> ValidRow(sheet[v])
  }

  predicate ValidRow(row: seq<Vec2>)
  {
    |row| >= 26 && forall k :: 0 <= k < |row| ==> 0.0 <= row[k].x0 && 0.0 <= row[k].x1 < 360.0
  }

  /** L* of the table entry for (scaled) value level v. */
  function LAt(table: Renotation, v: nat, dark: bool): real
    requires table.Valid() && v < Levels(dark)
  {
    if dark then table.lTableDark[v] else table.lTable[v]
  }

  /** [C*ab, hab] of the table entry for hue sector h, value level v and half-chroma k. */
  function ChAt(table: Renotation, h: nat, v: nat, k: nat, dark: bool): (e: Vec2)
    requires table.Valid() && h < 40 && v < Levels(dark) && k <= 25
    ensures 0.0 <= e.x0 && 0.0 <= e.x1 < 360.0
  {
    var t := if dark then table.chTableDark else table.chTable;
    assert ValidSheet(t[h], Levels(dark));
    assert ValidRow(t[h][v]);
    t[h][v][k]
  }

  /** A higher value level has a higher L*. */
  lemma LAtIncreasing(table: Renotation, v1: nat, v2: nat, dark: bool)
    requires table.Valid() && v1 < v2 < Levels(dark)
    ensures LAt(table, v1, dark) < LAt(table, v2, dark)
  {
  }

  // ---------------------------------------------------------------- level 1: table lookup

  /**
   * Hue sector, value level and half-chroma all integers: a table lookup, and beyond
   * half-chroma 25 a linear extrapolation of C*ab along the hue of half-chroma 25.
   */
  function AllIntegerCase(table: Renotation, hue40: nat, scaledValue: nat, halfChroma: nat, dark: bool): (r: Vec3)
    requires table.Valid() && hue40 < 40 && scaledValue < Levels(dark)
    ensures r.x0 == LAt(table, scaledValue, dark)
    ensures 0.0 <= r.x1 && 0.0 <= r.x2 < 360.0
    ensures halfChroma <= 25 ==> Vec2(r.x1, r.x2) == ChAt(table, hue40, scaledValue, halfChroma, dark)
    ensures halfChroma >= 25 ==>
      var edge := ChAt(table, hue40, scaledValue, 25, dark);
      r.x2 == edge.x1 && r.x1 == edge.x0 * (halfChroma as real / 25.0)
  {
    var lstar := LAt(table, scaledValue, dark);
    if halfChroma <= 25 then
      var e := ChAt(table, hue40, scaledValue, halfChroma, dark);
      Vec3(lstar, e.x0, e.x1)
    else
      var edge := ChAt(table, hue40, scaledValue, 25, dark);
      var factor := halfChroma as real / 25.0;
      NonNegativeProduct(edge.x0, factor);
      Vec3(lstar, edge.x0 * factor, edge.x1)
  }

  // ---------------------------------------------------------------- level 2: hue

  /** The two integer hue sectors around hue40, the upper one wrapping from 40 to 0. */
  function LowerSector(hue40: real): (h: nat)
    requires 0.0 <= hue40 < 40.0
    ensures h < 40
  {
    hue40.Floor
  }

  function UpperSector(hue40: real): (h: nat)
    requires 0.0 <= hue40 < 40.0
    ensures h < 40
  {
    Ceil(hue40) % 40
  }

  /** How far hue40 lies past its lower sector, the interpolation amount of the hue level. */
  function HueFraction(hue40: real): (t: real)
    requires 0.0 <= hue40 < 40.0
    ensures 0.0 <= t < 1.0
  {
    hue40 - LowerSector(hue40) as real
  }

  /**
   * The hue level keeps the lower sector's colour when hue40 is a whole sector, when both
   * sectors have the same hue angle, or when the upper one is not less than 180° ahead
   * counterclockwise (the library's guard against a reversed table).
   */
  predicate KeepsLowerSector(lower: Vec3, upper: Vec3, sameSector: bool)
  {
    sameSector || lower.x2 == upper.x2 || Mod(upper.x2 - lower.x2, 360.0) >= 180.0
  }

  /**
   * Value level and half-chroma integers: interpolates between the two hue sectors, hab
   * along the counterclockwise arc and C*ab by the arc lengths on either side of hab.
   */
  function ValueChromaIntegerCase(table: Renotation, hue40: real, scaledValue: nat, halfChroma: nat, dark: bool): (r: Vec3)
    requires table.Valid() && 0.0 <= hue40 < 40.0 && scaledValue < Levels(dark)
    ensures r.x0 == LAt(table, scaledValue, dark)
    ensures 0.0 <= r.x1 && 0.0 <= r.x2 < 360.0
  {
    var hue1, hue2 := LowerSector(hue40), UpperSector(hue40);
    var lower := AllIntegerCase(table, hue1, scaledValue, halfChroma, dark);
    var upper := AllIntegerCase(table, hue2, scaledValue, halfChroma, dark);
    if KeepsLowerSector(lower, upper, hue1 == hue2) then
      lower
    else
      HueBlend(lower, upper, HueFraction(hue40))
  }

  /**
   * The colour `amount` of the way from lower to upper in hue: hab by circularLerp on
   * the 360° circle, C*ab weighted by the arc lengths from hab to the two ends.
   */
  function HueBlend(lower: Vec3, upper: Vec3, amount: real): (r: Vec3)
    requires 0.0 <= lower.x1 && 0.0 <= upper.x1
    requires 0.0 <= lower.x2 < 360.0 && 0.0 <= upper.x2 < 360.0 && lower.x2 != upper.x2
    requires 0.0 <= amount <= 1.0
    ensures r.x0 == lower.x0 && 0.0 <= r.x1 && 0.0 <= r.x2 < 360.0
  {
    var hab := CircularLerp(amount, lower.x2, upper.x2, 360.0);
    CircularLerpOnArc(amount, lower.x2, upper.x2, 360.0);
    Vec3(lower.x0, ArcWeightedChroma(lower.x1, upper.x1, lower.x2, upper.x2, hab), hab)
  }

  /**
   * C*ab at hue angle hab between hab1 (chroma c1) and hab2 (chroma c2): each chroma is
   * weighted by the arc from hab to the other end, over the whole arc.
   */
  function ArcWeightedChroma(c1: real, c2: real, hab1: real, hab2: real, hab: real): (c: real)
    requires 0.0 <= c1 && 0.0 <= c2
    requires 0.0 <= hab1 < 360.0 && 0.0 <= hab2 < 360.0 && hab1 != hab2
    ensures 0.0 <= c
  {
    ArcPositive(hab1, hab2);
    WeightedBySpan(c1, c2, Mod(hab2 - hab1, 360.0), Mod(hab - hab1, 360.0), Mod(hab2 - hab, 360.0))
  }

  /** c1 weighted by the arc w after hab and c2 by the arc u before it, both over the whole span. */
  function WeightedBySpan(c1: real, c2: real, span: real, u: real, w: real): (c: real)
    requires 0.0 <= c1 && 0.0 <= c2 && span > 0.0 && 0.0 <= u && 0.0 <= w
    ensures 0.0 <= c
  {
    NonNegativeProduct(c1, w);
    NonNegativeProduct(c2, u);
    NonNegativeQuotient(c1 * w, span);
    NonNegativeQuotient(c2 * u, span);
    c1 * w / span + c2 * u / span
  }

  /** Two different reduced angles are a positive arc apart. */
  lemma ArcPositive(a: real, b: real)
    requires 0.0 <= a < 360.0 && 0.0 <= b < 360.0 && a != b
    ensures Mod(b - a, 360.0) > 0.0
  {
    ModCongruent(b - a, 360.0);
    if Mod(b - a, 360.0) == 0.0 {
      var k: int :| (b - a) - Mod(b - a, 360.0) == Times(k, 360.0);
      IntegerMultipleBelowOneLap(k, 360.0);
    }
  }

  lemma NonNegativeQuotient(a: real, b: real)
    requires 0.0 <= a && 0.0 < b
    ensures 0.0 <= a / b
  {
  }

  /** The hue level returns the lower sector's colour exactly when it short-circuits. */
  lemma HueLevelKeepsLower(table: Renotation, hue40: real, scaledValue: nat, halfChroma: nat, dark: bool)
    requires table.Valid() && 0.0 <= hue40 < 40.0 && scaledValue < Levels(dark)
    requires var hue1, hue2 := LowerSector(hue40), UpperSector(hue40);
      KeepsLowerSector(AllIntegerCase(table, hue1, scaledValue, halfChroma, dark),
        AllIntegerCase(table, hue2, scaledValue, halfChroma, dark), hue1 == hue2)
    ensures ValueChromaIntegerCase(table, hue40, scaledValue, halfChroma, dark)
      == AllIntegerCase(table, LowerSector(hue40), scaledValue, halfChroma, dark)
  {
  }

  /**
   * Otherwise the hue level is the blend of the two sectors' colours `amount` =
   * hue40 - floor(hue40) of the way from the lower to the upper one.
   */
  lemma HueLevelBlends(table: Renotation, hue40: real, scaledValue: nat, halfChroma: nat, dark: bool)
      returns (lower: Vec3, upper: Vec3, amount: real)
    requires table.Valid() && 0.0 <= hue40 < 40.0 && scaledValue < Levels(dark)
    requires var hue1, hue2 := LowerSector(hue40), UpperSector(hue40);
      !KeepsLowerSector(AllIntegerCase(table, hue1, scaledValue, halfChroma, dark),
        AllIntegerCase(table, hue2, scaledValue, halfChroma, dark), hue1 == hue2)
    ensures lower == AllIntegerCase(table, LowerSector(hue40), scaledValue, halfChroma, dark)
    ensures upper == AllIntegerCase(table, UpperSector(hue40), scaledValue, halfChroma, dark)
    ensures amount == HueFraction(hue40) && 0.0 <= amount <= 1.0
    ensures 0.0 <= lower.x1 && 0.0 <= upper.x1
    ensures 0.0 <= lower.x2 < 360.0 && 0.0 <= upper.x2 < 360.0 && lower.x2 != upper.x2
    ensures ValueChromaIntegerCase(table, hue40, scaledValue, halfChroma, dark) == HueBlend(lower, upper, amount)
  {
    lower := AllIntegerCase(table, LowerSector(hue40), scaledValue, halfChroma, dark);
    upper := AllIntegerCase(table, UpperSector(hue40), scaledValue, halfChroma, dark);
    amount := HueFraction(hue40);
  }

  /** ... which keeps the lower sector's L* ... */
  lemma HueLevelLightness(table: Renotation, hue40: real, scaledValue: nat, halfChroma: nat, dark: bool)
    requires table.Valid() && 0.0 <= hue40 < 40.0 && scaledValue < Levels(dark)
    requires var hue1, hue2 := LowerSector(hue40), UpperSector(hue40);
      !KeepsLowerSector(AllIntegerCase(table, hue1, scaledValue, halfChroma, dark),
        AllIntegerCase(table, hue2, scaledValue, halfChroma, dark), hue1 == hue2)
    ensures var lower := AllIntegerCase(table, LowerSector(hue40), scaledValue, halfChroma, dark);
      var upper := AllIntegerCase(table, UpperSector(hue40), scaledValue, halfChroma, dark);
      var amount := HueFraction(hue40);
      var r := ValueChromaIntegerCase(table, hue40, scaledValue, halfChroma, dark);
      r.x0 == lower.x0
  {
    var lower, upper, amount := HueLevelBlends(table, hue40, scaledValue, halfChroma, dark);
    var r := ValueChromaIntegerCase(table, hue40, scaledValue, halfChroma, dark);
  }

  /** ... puts hab on the counterclockwise arc from the lower sector's hue angle to the upper one's ... */
  lemma HueLevelOnArc(table: Renotation, hue40: real, scaledValue: nat, halfChroma: nat, dark: bool)
    requires table.Valid() && 0.0 <= hue40 < 40.0 && scaledValue < Levels(dark)
    requires var hue1, hue2 := LowerSector(hue40), UpperSector(hue40);
      !KeepsLowerSector(AllIntegerCase(table, hue1, scaledValue, halfChroma, dark),
        AllIntegerCase(table, hue2, scaledValue, halfChroma, dark), hue1 == hue2)
    ensures var lower := AllIntegerCase(table, LowerSector(hue40), scaledValue, halfChroma, dark);
      var upper := AllIntegerCase(table, UpperSector(hue40), scaledValue, halfChroma, dark);
      var amount := HueFraction(hue40);
      var r := ValueChromaIntegerCase(table, hue40, scaledValue, halfChroma, dark);
      OnArc(r.x2, lower.x2, upper.x2)
  {
    var lower, upper, amount := HueLevelBlends(table, hue40, scaledValue, halfChroma, dark);
    var r := ValueChromaIntegerCase(table, hue40, scaledValue, halfChroma, dark);
    HueAngleArcs(lower.x2, upper.x2, amount, r.x2);
  }

  /** ... at the angle circularLerp gives for `amount` between the two sectors' hue angles ... */
  lemma HueLevelAngle(table: Renotation, hue40: real, scaledValue: nat, halfChroma: nat, dark: bool)
    requires table.Valid() && 0.0 <= hue40 < 40.0 && scaledValue < Levels(dark)
    requires var hue1, hue2 := LowerSector(hue40), UpperSector(hue40);
      !KeepsLowerSector(AllIntegerCase(table, hue1, scaledValue, halfChroma, dark),
        AllIntegerCase(table, hue2, scaledValue, halfChroma, dark), hue1 == hue2)
    ensures var lower := AllIntegerCase(table, LowerSector(hue40), scaledValue, halfChroma, dark);
      var upper := AllIntegerCase(table, UpperSector(hue40), scaledValue, halfChroma, dark);
      var r := ValueChromaIntegerCase(table, hue40, scaledValue, halfChroma, dark);
      r.x2 == CircularLerp(HueFraction(hue40), lower.x2, upper.x2, 360.0)
  {
    var lower, upper, amount := HueLevelBlends(table, hue40, scaledValue, halfChroma, dark);
  }

  /** ... and blends the two sectors' chromas by the same amount ... */
  lemma HueLevelChroma(table: Renotation, hue40: real, scaledValue: nat, halfChroma: nat, dark: bool)
    requires table.Valid() && 0.0 <= hue40 < 40.0 && scaledValue < Levels(dark)
    requires var hue1, hue2 := LowerSector(hue40), UpperSector(hue40);
      !KeepsLowerSector(AllIntegerCase(table, hue1, scaledValue, halfChroma, dark),
        AllIntegerCase(table, hue2, scaledValue, halfChroma, dark), hue1 == hue2)
    ensures var lower := AllIntegerCase(table, LowerSector(hue40), scaledValue, halfChroma, dark);
      var upper := AllIntegerCase(table, UpperSector(hue40), scaledValue, halfChroma, dark);
      var amount := HueFraction(hue40);
      var r := ValueChromaIntegerCase(table, hue40, scaledValue, halfChroma, dark);
      r.x1 == Convex(lower.x1, upper.x1, amount)
  {
    var lower, upper, amount := HueLevelBlends(table, hue40, scaledValue, halfChroma, dark);
    var r := ValueChromaIntegerCase(table, hue40, scaledValue, halfChroma, dark);
    assert r.x1 == ArcWeightedChroma(lower.x1, upper.x1, lower.x2, upper.x2, r.x2);
    ArcWeightedChromaBlends(lower.x1, upper.x1, lower.x2, upper.x2, amount, r.x2);
  }

  /** ... so that C*ab lies between them. */
  lemma HueLevelChromaBetween(table: Renotation, hue40: real, scaledValue: nat, halfChroma: nat, dark: bool)
    requires table.Valid() && 0.0 <= hue40 < 40.0 && scaledValue < Levels(dark)
    requires var hue1, hue2 := LowerSector(hue40), UpperSector(hue40);
      !KeepsLowerSector(AllIntegerCase(table, hue1, scaledValue, halfChroma, dark),
        AllIntegerCase(table, hue2, scaledValue, halfChroma, dark), hue1 == hue2)
    ensures var lower := AllIntegerCase(table, LowerSector(hue40), scaledValue, halfChroma, dark);
      var upper := AllIntegerCase(table, UpperSector(hue40), scaledValue, halfChroma, dark);
      var amount := HueFraction(hue40);
      var r := ValueChromaIntegerCase(table, hue40, scaledValue, halfChroma, dark);
      Min(lower.x1, upper.x1) <= r.x1 <= Max(lower.x1, upper.x1)
  {
    var lower, upper, amount := HueLevelBlends(table, hue40, scaledValue, halfChroma, dark);
    var r := ValueChromaIntegerCase(table, hue40, scaledValue, halfChroma, dark);
    assert r.x1 == ArcWeightedChroma(lower.x1, upper.x1, lower.x2, upper.x2, r.x2);
    ArcWeightedChromaBetween(lower.x1, upper.x1, lower.x2, upper.x2, amount, r.x2);
  }

  /** C*ab at that hue angle is the convex blend of the two chromas with the same amount ... */
  lemma ArcWeightedChromaBlends(c1: real, c2: real, hab1: real, hab2: real, amount: real, hab: real)
    requires 0.0 <= c1 && 0.0 <= c2
    requires 0.0 <= hab1 < 360.0 && 0.0 <= hab2 < 360.0 && hab1 != hab2
    requires 0.0 <= amount <= 1.0 && hab == CircularLerp(amount, hab1, hab2, 360.0)
    ensures ArcWeightedChroma(c1, c2, hab1, hab2, hab) == Convex(c1, c2, amount)
  {
    HueAngleArcs(hab1, hab2, amount, hab);
    WeightedByArcs(c1, c2, amount, Mod(hab2 - hab1, 360.0), Mod(hab - hab1, 360.0), Mod(hab2 - hab, 360.0));
  }

  /** ... which lies between them. */
  lemma ArcWeightedChromaBetween(c1: real, c2: real, hab1: real, hab2: real, amount: real, hab: real)
    requires 0.0 <= c1 && 0.0 <= c2
    requires 0.0 <= hab1 < 360.0 && 0.0 <= hab2 < 360.0 && hab1 != hab2
    requires 0.0 <= amount <= 1.0 && hab == CircularLerp(amount, hab1, hab2, 360.0)
    ensures Min(c1, c2) <= ArcWeightedChroma(c1, c2, hab1, hab2, hab) <= Max(c1, c2)
  {
    ArcWeightedChromaBlends(c1, c2, hab1, hab2, amount, hab);
    ConvexBetween(c1, c2, amount);
  }

  /**
   * The hue angle hab `amount` of the way from hab1 to hab2 lies on the counterclockwise
   * arc between them, splits that (non-empty) arc in two, and the part before it is
   * `amount` of the whole.
   */
  lemma HueAngleArcs(hab1: real, hab2: real, amount: real, hab: real)
    requires 0.0 <= hab1 < 360.0 && 0.0 <= hab2 < 360.0 && hab1 != hab2
    requires 0.0 <= amount <= 1.0 && hab == CircularLerp(amount, hab1, hab2, 360.0)
    ensures OnArc(hab, hab1, hab2) && Mod(hab2 - hab1, 360.0) > 0.0
    ensures Mod(hab - hab1, 360.0) + Mod(hab2 - hab, 360.0) == Mod(hab2 - hab1, 360.0)
    ensures Mod(hab - hab1, 360.0) == Fraction(amount, Mod(hab2 - hab1, 360.0))
  {
    ArcPositive(hab1, hab2);
    HueAngleSplit(hab1, hab2, amount, hab);
    HueAngleFraction(hab1, hab2, amount, hab);
  }

  lemma HueAngleSplit(hab1: real, hab2: real, amount: real, hab: real)
    requires 0.0 <= hab1 < 360.0 && 0.0 <= hab2 < 360.0
    requires 0.0 <= amount <= 1.0 && hab == CircularLerp(amount, hab1, hab2, 360.0)
    ensures OnArc(hab, hab1, hab2)
    ensures Mod(hab - hab1, 360.0) + Mod(hab2 - hab, 360.0) == Mod(hab2 - hab1, 360.0)
  {
    ModOfReduced(hab1, 360.0);
    ModOfReduced(hab2, 360.0);
    var span, step := ReducedLerp(amount, hab1, hab2, 360.0, hab);
    LerpDistances(hab1, hab2, hab, 360.0, span, step);
    ArcRemainder(hab1, hab2, hab, 360.0, span, step);
  }

  lemma HueAngleFraction(hab1: real, hab2: real, amount: real, hab: real)
    requires 0.0 <= hab1 < 360.0 && 0.0 <= hab2 < 360.0
    requires 0.0 <= amount <= 1.0 && hab == CircularLerp(amount, hab1, hab2, 360.0)
    ensures Mod(hab - hab1, 360.0) == Fraction(amount, Mod(hab2 - hab1, 360.0))
  {
    ModOfReduced(hab1, 360.0);
    ModOfReduced(hab2, 360.0);
    var span, step := ReducedLerp(amount, hab1, hab2, 360.0, hab);
    LerpDistances(hab1, hab2, hab, 360.0, span, step);
  }

  /** Weights w and u that split span, with u = amount · span, blend c1 and c2 into c1 · (1 - amount) + c2 · amount. */
  lemma WeightedByArcs(c1: real, c2: real, amount: real, span: real, u: real, w: real)
    requires 0.0 <= c1 && 0.0 <= c2 && span > 0.0 && 0.0 <= u && 0.0 <= w
    requires u == Fraction(amount, span) && u + w == span
    ensures WeightedBySpan(c1, c2, span, u, w) == Convex(c1, c2, amount)
  {
    assert w == (1.0 - amount) * span;
    assert c1 * w / span == c1 * (1.0 - amount);
    assert c2 * u / span == c2 * amount;
  }

  /** For amount in [0, 1] it lies between c1 and c2. */
  lemma ConvexBetween(c1: real, c2: real, amount: real)
    requires 0.0 <= amount <= 1.0
    ensures Min(c1, c2) <= Convex(c1, c2, amount) <= Max(c1, c2)
  {
    var c := c1 * (1.0 - amount) + c2 * amount;
    assert c - c1 == amount * (c2 - c1);
    assert c2 - c == (1.0 - amount) * (c2 - c1);
    if c1 <= c2 {
      NonNegativeProduct(amount, c2 - c1);
      NonNegativeProduct(1.0 - amount, c2 - c1);
    } else {
      NonNegativeProduct(amount, c1 - c2);
      NonNegativeProduct(1.0 - amount, c1 - c2);
    }
  }

  // ---------------------------------------------------------------- level 3: chroma

  /**
   * Value level integer: interpolates between the two integer half-chromas around
   * halfChroma, linearly in a* and b*.
   */
  function ValueIntegerCase(m: Transcendental, table: Renotation, hue40: real, scaledValue: nat, halfChroma: real, dark: bool): (r: Vec3)
    requires table.Valid() && 0.0 <= hue40 < 40.0 && scaledValue < Levels(dark) && 0.0 <= halfChroma
    ensures r.x0 == LAt(table, scaledValue, dark)
    ensures 0.0 <= r.x2 < 360.0
    ensures IsInteger(halfChroma) ==> r == ValueChromaIntegerCase(table, hue40, scaledValue, halfChroma.Floor, dark)
  {
    var halfChroma1: nat := halfChroma.Floor;
    var halfChroma2: nat := Ceil(halfChroma);
    if halfChroma1 == halfChroma2 then
      ValueChromaIntegerCase(table, hue40, scaledValue, halfChroma1, dark)
    else
      var lower := ValueChromaIntegerCase(table, hue40, scaledValue, halfChroma1, dark);
      var upper := ValueChromaIntegerCase(table, hue40, scaledValue, halfChroma2, dark);
      var p1 := PolarToCartesian(m, lower.x1, lower.x2, 360.0);
      var p2 := PolarToCartesian(m, upper.x1, upper.x2, 360.0);
      var astar := p1.x0 * (halfChroma2 as real - halfChroma) + p2.x0 * (halfChroma - halfChroma1 as real);
      var bstar := p1.x1 * (halfChroma2 as real - halfChroma) + p2.x1 * (halfChroma - halfChroma1 as real);
      LabToLchab(m, lower.x0, astar, bstar)
  }

  // ---------------------------------------------------------------- level 4: value

  /** The actual Munsell value of a scaled value level. */
  function ActualValue(scaledValue: real, dark: bool): real
  {
    if dark then scaledValue * 0.2 else scaledValue
  }

  /**
   * The general case: interpolates between the two integer value levels around
   * scaledValue, linearly in a* and b* against L*, with L* itself from munsellValueToL.
   * Below the first level (a dark value under 0.2) there is nothing to interpolate from:
   * C*ab and hab are those of level 1.
   */
  function GeneralCase(m: Transcendental, table: Renotation, hue40: real, scaledValue: real, halfChroma: real, dark: bool): (r: Vec3)
    requires table.Valid() && 0.0 <= hue40 < 40.0 && 0.0 <= halfChroma
    requires 0.0 <= scaledValue <= (Levels(dark) - 1) as real
    ensures 0.0 <= r.x2 < 360.0
    ensures IsInteger(scaledValue) ==> r == ValueIntegerCase(m, table, hue40, scaledValue.Floor, halfChroma, dark)
    ensures !IsInteger(scaledValue) ==> r.x0 == MunsellValueToL(m, ActualValue(scaledValue, dark))
  {
    var lstar := MunsellValueToL(m, ActualValue(scaledValue, dark));
    var scaledValue1: nat := scaledValue.Floor;
    var scaledValue2: nat := Ceil(scaledValue);
    if scaledValue1 == scaledValue2 then
      ValueIntegerCase(m, table, hue40, scaledValue1, halfChroma, dark)
    else if scaledValue1 == 0 then
      var first := ValueIntegerCase(m, table, hue40, 1, halfChroma, dark);
      Vec3(lstar, first.x1, first.x2)
    else
      var lower := ValueIntegerCase(m, table, hue40, scaledValue1, halfChroma, dark);
      var upper := ValueIntegerCase(m, table, hue40, scaledValue2, halfChroma, dark);
      LAtIncreasing(table, scaledValue1, scaledValue2, dark);
      ValueBlend(m, lower, upper, lstar)
  }

  /** The colour at lightness lstar on the straight line in Lab through lower and upper. */
  function ValueBlend(m: Transcendental, lower: Vec3, upper: Vec3, lstar: real): (r: Vec3)
    requires lower.x0 != upper.x0
    ensures r.x0 == lstar && 0.0 <= r.x2 < 360.0
  {
    var lstar1, lstar2 := lower.x0, upper.x0;
    var p1 := PolarToCartesian(m, lower.x1, lower.x2, 360.0);
    var p2 := PolarToCartesian(m, upper.x1, upper.x2, 360.0);
    var astar := p1.x0 * (lstar2 - lstar) / (lstar2 - lstar1) + p2.x0 * (lstar - lstar1) / (lstar2 - lstar1);
    var bstar := p1.x1 * (lstar2 - lstar) / (lstar2 - lstar1) + p2.x1 * (lstar - lstar1) / (lstar2 - lstar1);
    LabToLchab(m, lstar, astar, bstar)
  }

  /** Below value level 1 the chroma and hue come from level 1, the lightness from the value itself. */
  lemma DarkestLevel(m: Transcendental, table: Renotation, hue40: real, scaledValue: real, halfChroma: real, dark: bool)
    requires table.Valid() && 0.0 <= hue40 < 40.0 && 0.0 <= halfChroma
    requires 0.0 < scaledValue < 1.0
    ensures var r := GeneralCase(m, table, hue40, scaledValue, halfChroma, dark);
      var first := ValueIntegerCase(m, table, hue40, 1, halfChroma, dark);
      r == Vec3(MunsellValueToL(m, ActualValue(scaledValue, dark)), first.x1, first.x2)
  {
    assert scaledValue.Floor == 0;
  }

  // ---------------------------------------------------------------- the converter

  /**
   * Munsell HVC to LCHab under illuminant C: the hue is reduced to 40 sectors, the value
   * clamped into [0, 10] and a negative chroma taken as zero. The dark branch is chosen by
   * the value as given, before clamping.
   */
  function MhvcToLchab(m: Transcendental, table: Renotation, hue100: real, value: real, chroma: real): (r: Vec3)
    requires table.Valid()
    ensures 0.0 <= r.x2 < 360.0
  {
    var hue40 := Mod(hue100 * 0.4, 40.0);
    var value10 := Clamp(value, 0.0, 10.0);
    var halfChroma := Max(0.0, chroma) * 0.5;
    if value >= 1.0 then
      GeneralCase(m, table, hue40, value10, halfChroma, false)
    else
      GeneralCase(m, table, hue40, value10 * 5.0, halfChroma, true)
  }

  /** Only the class of the hue in R/100Z matters. */
  lemma MhvcToLchabHuePeriodic(m: Transcendental, table: Renotation, hue100: real, k: int, shifted: real,
                               value: real, chroma: real)
    requires table.Valid() && shifted == hue100 + Times(k, 100.0)
    ensures MhvcToLchab(m, table, shifted, value, chroma) == MhvcToLchab(m, table, hue100, value, chroma)
  {
    HueSectorPeriodic(hue100, k, shifted);
  }

  lemma HueSectorPeriodic(hue100: real, k: int, shifted: real)
    requires shifted == hue100 + Times(k, 100.0)
    ensures Mod(shifted * 0.4, 40.0) == Mod(hue100 * 0.4, 40.0)
  {
    assert shifted * 0.4 == hue100 * 0.4 + Times(k, 40.0);
    ModPeriodic(hue100 * 0.4, k, 40.0);
  }

  /** Only the value clamped into [0, 10] matters, although the dark test reads the unclamped value. */
  lemma MhvcToLchabValueClamped(m: Transcendental, table: Renotation, hue100: real, value: real, chroma: real)
    requires table.Valid()
    ensures MhvcToLchab(m, table, hue100, Clamp(value, 0.0, 10.0), chroma) == MhvcToLchab(m, table, hue100, value, chroma)
  {
  }

  /** A negative chroma converts as chroma zero. */
  lemma MhvcToLchabChromaClamped(m: Transcendental, table: Renotation, hue100: real, value: real, chroma: real)
    requires table.Valid()
    ensures MhvcToLchab(m, table, hue100, value, Max(chroma, 0.0)) == MhvcToLchab(m, table, hue100, value, chroma)
  {
  }

  /**
   * Off the table's value levels the lightness is munsellValueToL of the clamped value;
   * on them it is the table's L*.
   */
  lemma MhvcToLchabLightness(m: Transcendental, table: Renotation, hue100: real, value: real, chroma: real)
    requires table.Valid()
    ensures var v := Clamp(value, 0.0, 10.0);
      var dark := value < 1.0;
      var scaled := if dark then v * 5.0 else v;
      var r := MhvcToLchab(m, table, hue100, value, chroma);
      && (!IsInteger(scaled) ==> r.x0 == MunsellValueToL(m, v))
      && (IsInteger(scaled) ==> r.x0 == LAt(table, scaled.Floor, dark))
  {
    var v := Clamp(value, 0.0, 10.0);
    if value < 1.0 {
      assert ActualValue(v * 5.0, true) == v;
    }
  }

  // ---------------------------------------------------------------- pipelines

  /** Munsell HVC to CIELAB under illuminant C. */
  function MhvcToLab(m: Transcendental, table: Renotation, hue100: real, value: real, chroma: real): (r: Vec3)
    requires table.Valid()
    ensures r.x0 == MhvcToLchab(m, table, hue100, value, chroma).x0
  {
    var lch := MhvcToLchab(m, table, hue100, value, chroma);
    LchabToLab(m, lch.x0, lch.x1, lch.x2)
  }

  /** Munsell HVC to XYZ under the given illuminant, adapted from C by its Bradford matrix. */
  function MhvcToXyz(m: Transcendental, table: Renotation, hue100: real, value: real, chroma: real,
                     illuminant: Illuminant := ILLUMINANT_D65): (r: Vec3)
    requires table.Valid()
  {
    var lab := MhvcToLab(m, table, hue100, value, chroma);
    MultMatrixVector(illuminant.catMatrixCToThis, LabToXyz(lab.x0, lab.x1, lab.x2, ILLUMINANT_C))
  }

  /** Under illuminant C the adaptation is the identity, and Y is the luminance of L*. */
  lemma MhvcToXyzUnderC(m: Transcendental, table: Renotation, hue100: real, value: real, chroma: real)
    requires table.Valid()
    ensures var lab := MhvcToLab(m, table, hue100, value, chroma);
      MhvcToXyz(m, table, hue100, value, chroma, ILLUMINANT_C) == LabToXyz(lab.x0, lab.x1, lab.x2, ILLUMINANT_C)
    ensures MhvcToXyz(m, table, hue100, value, chroma, ILLUMINANT_C).x1 == LToY(MhvcToLchab(m, table, hue100, value, chroma).x0)
  {
    var lab := MhvcToLab(m, table, hue100, value, chroma);
    IdentityNeutral(LabToXyz(lab.x0, lab.x1, lab.x2, ILLUMINANT_C), IDENTITY);
  }

  function MhvcToLinearRgb(m: Transcendental, table: Renotation, hue100: real, value: real, chroma: real, rgbSpace: RgbSpace): Vec3
    requires table.Valid()
  {
    var xyz := MhvcToXyz(m, table, hue100, value, chroma, rgbSpace.illuminant);
    XyzToLinearRgb(xyz.x0, xyz.x1, xyz.x2, rgbSpace)
  }

  function MhvcToRgb(m: Transcendental, table: Renotation, hue100: real, value: real, chroma: real, rgbSpace: RgbSpace): Vec3
    requires table.Valid()
  {
    var lin := MhvcToLinearRgb(m, table, hue100, value, chroma, rgbSpace);
    LinearRgbToRgb(lin.x0, lin.x1, lin.x2, rgbSpace)
  }

  /** Munsell HVC to 8-bit RGB: whole numbers, in [0, 255] when clamping. */
  function MhvcToRgb255(m: Transcendental, table: Renotation, hue100: real, value: real, chroma: real, clamp: bool, rgbSpace: RgbSpace): (r: Vec3)
    requires table.Valid()
    ensures IsInteger(r.x0) && IsInteger(r.x1) && IsInteger(r.x2)
    ensures clamp ==> 0.0 <= r.x0 <= 255.0 && 0.0 <= r.x1 <= 255.0 && 0.0 <= r.x2 <= 255.0
  {
    var rgb := MhvcToRgb(m, table, hue100, value, chroma, rgbSpace);
    RgbToRgb255(rgb.x0, rgb.x1, rgb.x2, clamp)
  }

  /** Munsell HVC to a '#rrggbb' code whose bytes are the clamped 8-bit RGB. */
  function MhvcToHex(m: Transcendental, table: Renotation, hue100: real, value: real, chroma: real, rgbSpace: RgbSpace): (s: string)
    requires table.Valid()
    ensures |s| == 7 && s[0] == '#' && IsLowerHex(s[1..])
    ensures AllHexDigits(s[1..3]) && AllHexDigits(s[3..5]) && AllHexDigits(s[5..7])
    ensures var q := MhvcToRgb255(m, table, hue100, value, chroma, true, rgbSpace);
      && HexNumeralValue(s[1..3]) as real == q.x0
      && HexNumeralValue(s[3..5]) as real == q.x1
      && HexNumeralValue(s[5..7]) as real == q.x2
  {
    var rgb := MhvcToRgb(m, table, hue100, value, chroma, rgbSpace);
    var s := RgbToHex(rgb.x0, rgb.x1, rgb.x2);
    assert MhvcToRgb255(m, table, hue100, value, chroma, true, rgbSpace) == RgbToRgb255(rgb.x0, rgb.x1, rgb.x2, true);
    s
  }
}
