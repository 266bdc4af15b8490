/**
 * The inverse conversion of munsell.js: Munsell value from Y or L* by interpolation in a
 * 2001-entry table, and LCHab (under illuminant C) to Munsell HVC by a damped fixed-point
 * iteration over the forward conversion, with the pipelines from Lab, XYZ, RGB and hex codes.
 *
 * The Y → value table is generated offline; it arrives as the parameter `yTable`.
 */
module Invert {
  import opened Results
  import opened JsBuiltins
  import opened Arithmetic
  import opened Colorspace
  import opened Convert
  import opened MunsellCode

  // ---------------------------------------------------------------- Y and L* to value

  /** The table samples Y at 0, 1/2000, ..., 1. */
  const Y_STEPS: nat := 2000

  predicate IsValueTable(yTable: seq<real>) { |yTable| == Y_STEPS + 1 }

  predicate NonDecreasing(t: seq<real>)
  {
    forall i, j :: 0 <= i <= j < |t| ==> t[i] <= t[j]
  }

  /**
   * yToMunsellValue: Y is clamped into [0, 1] and scaled to the table's steps. On a sample
   * point the result is that entry; between two it is their convex combination, so it lies
   * between the two entries.
   */
  function YToMunsellValue(yTable: seq<real>, Y: real): (v: real)
    requires IsValueTable(yTable)
    ensures var y := Clamp(Y, 0.0, 1.0) * 2000.0;
      var i := y.Floor;
      && 0 <= i <= Y_STEPS
      && (IsInteger(y) ==> v == yTable[i])
      && (!IsInteger(y) ==> i < Y_STEPS && v == Convex(yTable[i], yTable[i + 1], y - i as real)
                            && Min(yTable[i], yTable[i + 1]) <= v <= Max(yTable[i], yTable[i + 1]))
  {
    var y2000 := Clamp(Y, 0.0, 1.0) * 2000.0;
    var yFloor := y2000.Floor;
    var yCeil := Ceil(y2000);
    if yFloor == yCeil then
      yTable[yFloor]
    else
      assert yCeil == yFloor + 1;
      ConvexBetween(yTable[yFloor], yTable[yCeil], y2000 - yFloor as real);
      (yCeil as real - y2000) * yTable[yFloor] + (y2000 - yFloor as real) * yTable[yCeil]
  }

  /** Below 0 the result is the first entry, above 1 the last. */
  lemma YToMunsellValueClamped(yTable: seq<real>, Y: real)
    requires IsValueTable(yTable)
    ensures Y <= 0.0 ==> YToMunsellValue(yTable, Y) == yTable[0]
    ensures Y >= 1.0 ==> YToMunsellValue(yTable, Y) == yTable[Y_STEPS]
  {
  }

  /** On the sample point i/2000 the result is the i-th entry. */
  lemma YToMunsellValueAtSample(yTable: seq<real>, i: nat)
    requires IsValueTable(yTable) && i <= Y_STEPS
    ensures YToMunsellValue(yTable, i as real / 2000.0) == yTable[i]
  {
    assert Clamp(i as real / 2000.0, 0.0, 1.0) * 2000.0 == i as real;
    YToMunsellValueOnGrid(yTable, i as real / 2000.0, i);
  }

  lemma YToMunsellValueOnGrid(yTable: seq<real>, Y: real, i: nat)
    requires IsValueTable(yTable) && i <= Y_STEPS && Clamp(Y, 0.0, 1.0) * 2000.0 == i as real
    ensures YToMunsellValue(yTable, Y) == yTable[i]
  {
    assert (i as real).Floor == i && IsInteger(i as real);
  }

  /** A non-decreasing table gives a non-decreasing interpolant. */
  lemma {:induction false} YToMunsellValueMonotone(yTable: seq<real>, Y1: real, Y2: real)
    requires IsValueTable(yTable) && NonDecreasing(yTable) && Y1 <= Y2
    ensures YToMunsellValue(yTable, Y1) <= YToMunsellValue(yTable, Y2)
  {
    var y1 := Clamp(Y1, 0.0, 1.0) * 2000.0;
    var y2 := Clamp(Y2, 0.0, 1.0) * 2000.0;
    var i1, i2 := y1.Floor, y2.Floor;
    var v1, v2 := YToMunsellValue(yTable, Y1), YToMunsellValue(yTable, Y2);
    assert y1 <= y2;
    if i1 < i2 {
      assert v1 <= yTable[i1 + 1] by {
        if !IsInteger(y1) { assert yTable[i1] <= yTable[i1 + 1]; }
        else { assert yTable[i1] <= yTable[i1 + 1]; }
      }
      assert yTable[i1 + 1] <= yTable[i2];
      assert yTable[i2] <= v2 by {
        if !IsInteger(y2) { assert yTable[i2] <= yTable[i2 + 1]; }
      }
    } else if IsInteger(y1) {
      if !IsInteger(y2) {
        assert yTable[i2] <= yTable[i2 + 1];
      }
    } else {
      assert !IsInteger(y2);
      ConvexMonotone(yTable[i1], yTable[i1 + 1], y1 - i1 as real, y2 - i2 as real);
    }
  }

  /** A non-decreasing table keeps the interpolant between its first and last entries. */
  lemma YToMunsellValueRange(yTable: seq<real>, Y: real)
    requires IsValueTable(yTable)
    ensures NonDecreasing(yTable) ==> yTable[0] <= YToMunsellValue(yTable, Y) <= yTable[Y_STEPS]
  {
    if NonDecreasing(yTable) {
      var i := (Clamp(Y, 0.0, 1.0) * 2000.0).Floor;
      assert yTable[0] <= yTable[i] <= yTable[Y_STEPS];
      if i < Y_STEPS {
        assert yTable[0] <= yTable[i + 1] <= yTable[Y_STEPS];
      }
    }
  }

  lemma ConvexMonotone(c1: real, c2: real, a1: real, a2: real)
    requires c1 <= c2 && a1 <= a2
    ensures Convex(c1, c2, a1) <= Convex(c1, c2, a2)
  {
    assert Convex(c1, c2, a2) - Convex(c1, c2, a1) == (a2 - a1) * (c2 - c1);
    NonNegativeProduct(a2 - a1, c2 - c1);
  }

  /** lToMunsellValue: the value of the luminance of L*. */
  function LToMunsellValue(yTable: seq<real>, lstar: real): (v: real)
    requires IsValueTable(yTable)
    ensures NonDecreasing(yTable) ==> yTable[0] <= v <= yTable[Y_STEPS]
  {
    YToMunsellValueRange(yTable, LToY(lstar));
    YToMunsellValue(yTable, LToY(lstar))
  }

  /** Black is value 0 and L* = 100 is value 10 when the table runs from 0 to 10. */
  lemma LToMunsellValueEnds(yTable: seq<real>)
    requires IsValueTable(yTable) && yTable[0] == 0.0 && yTable[Y_STEPS] == 10.0
    ensures LToMunsellValue(yTable, 0.0) == 0.0 && LToMunsellValue(yTable, 100.0) == 10.0
  {
    LToYEnds();
    YToMunsellValueAtSample(yTable, 0);
    YToMunsellValueAtSample(yTable, Y_STEPS);
  }

  /** A lighter colour never has a lower value. */
  lemma LToMunsellValueMonotone(yTable: seq<real>, l1: real, l2: real)
    requires IsValueTable(yTable) && NonDecreasing(yTable) && l1 <= l2
    ensures LToMunsellValue(yTable, l1) <= LToMunsellValue(yTable, l2)
  {
    if l1 < l2 {
      LToYStrictlyIncreasing(l1, l2);
    }
    YToMunsellValueMonotone(yTable, LToY(l1), LToY(l2));
  }

  // ---------------------------------------------------------------- the inverter

  /** 100/360 and 1/5.5 as the source writes them. */
  const HUE_PER_DEGREE: real := 0.277777777778
  const CHROMA_PER_CSTAR: real := 0.181818181818

  /** A hue angle in degrees in hue100 units. */
  function DegreesToHue100(degrees: real): real
  {
    degrees * HUE_PER_DEGREE
  }

  /** A C*ab in Munsell chroma units. */
  function CstarToChroma(cstar: real): real
  {
    cstar * CHROMA_PER_CSTAR
  }

  /** The optional arguments of the inverter. */
  datatype InvertOptions = InvertOptions(threshold: real, maxIteration: int, ifReachMax: string, factor: real)

  const DEFAULT_OPTIONS: InvertOptions := InvertOptions(0.000001, 200, "error", 0.5)

  /** How many times the loop `for (i = 0; i < maxIteration; i++)` runs at most. */
  function IterationBound(maxIteration: int): (n: nat)
    ensures n as int >= maxIteration && (maxIteration >= 0 ==> n as int == maxIteration)
    ensures maxIteration <= 0 ==> n == 0
  {
    if maxIteration > 0 then maxIteration else 0
  }

  /**
   * The map the inverter inverts, Munsell HVC to LCHab. The iteration below is stated for any
   * such map; the library's is `Forward(m, table)`, mhvcToLchab.
   */
  type ForwardMap = (real, real, real) -> Vec3

  function Forward(m: Transcendental, table: Renotation): (f: ForwardMap)
    requires table.Valid()
    ensures forall h, v, c :: f(h, v, c) == MhvcToLchab(m, table, h, v, c)
  {
    (h: real, v: real, c: real) => MhvcToLchab(m, table, h, v, c)
  }

  /** The map sees the hue only through its class in R/100Z. */
  ghost predicate HuePeriodic(forward: ForwardMap)
  {
    forall h, v, c {:trigger forward(Mod(h, 100.0), v, c)} :: forward(Mod(h, 100.0), v, c) == forward(h, v, c)
  }

  /** mhvcToLchab is periodic in the hue. */
  lemma ForwardHuePeriodic(m: Transcendental, table: Renotation)
    requires table.Valid()
    ensures HuePeriodic(Forward(m, table))
  {
    var f := Forward(m, table);
    forall h, v, c ensures f(Mod(h, 100.0), v, c) == f(h, v, c) {
      ReducedHueSameLchab(m, table, h, v, c);
    }
  }

  lemma ReducedHueSameLchab(m: Transcendental, table: Renotation, h: real, v: real, c: real)
    requires table.Valid()
    ensures MhvcToLchab(m, table, Mod(h, 100.0), v, c) == MhvcToLchab(m, table, h, v, c)
  {
    ModCongruent(h, 100.0);
    var k: int :| h - Mod(h, 100.0) == Times(k, 100.0);
    assert h == Mod(h, 100.0) + Times(k, 100.0);
    MhvcToLchabHuePeriodic(m, table, Mod(h, 100.0), k, h, v, c);
  }

  /**
   * The correction [Δhue100, Δchroma] at one iterate: the signed hue-angle difference and the
   * C*ab difference to the target, scaled to Munsell units. The hue step never exceeds half
   * the hue circle.
   */
  function Correction(forward: ForwardMap, cstarab: real, hab: real, hue100: real, value: real, chroma: real): (d: Vec2)
    ensures Abs(d.x0) <= DegreesToHue100(180.0)
  {
    var lch := forward(hue100, value, chroma);
    Vec2(DegreesToHue100(CircularDelta(hab, lch.x2, 360.0)), CstarToChroma(cstarab - lch.x1))
  }

  /** Both components of the correction are within the threshold. */
  predicate Within(d: Vec2, threshold: real)
  {
    Abs(d.x0) <= threshold && Abs(d.x1) <= threshold
  }

  /** The damped step: the fraction `factor` of a correction. */
  function Damped(factor: real, delta: real): real
  {
    factor * delta
  }

  /** Where the loop ends: at an iterate whose corrections are within the threshold, or out of iterations. */
  datatype Outcome = Converged(hue100: real, chroma: real) | Exhausted(hue100: real, chroma: real)

  /**
   * The loop of invertMhvcToLchab with `remaining` passes left, from the iterate (hue100, chroma).
   * The loop stops only at an iterate whose two corrections are within the threshold, and a
   * non-negative starting chroma stays non-negative.
   */
  function Iterate(forward: ForwardMap, cstarab: real, hab: real, value: real, threshold: real, factor: real,
                   hue100: real, chroma: real, remaining: nat): (o: Outcome)
    ensures o.Converged? ==> Within(Correction(forward, cstarab, hab, o.hue100, value, o.chroma), threshold)
    ensures chroma >= 0.0 ==> o.chroma >= 0.0
    decreases remaining
  {
    if remaining == 0 then
      Exhausted(hue100, chroma)
    else
      var d := Correction(forward, cstarab, hab, hue100, value, chroma);
      if Within(d, threshold) then
        Converged(hue100, chroma)
      else
        Iterate(forward, cstarab, hab, value, threshold, factor,
                hue100 + Damped(factor, d.x0), Max(0.0, chroma + Damped(factor, d.x1)), remaining - 1)
  }

  /** The action taken when the loop runs out: ifReachMax 'error', 'init', 'last' or anything else. */
  function OnExhaustion(ifReachMax: string, init: Vec3, last: Vec3): (r: Result<Vec3>)
  {
    if ifReachMax == "error" then Fail(IterationLimit)
    else if ifReachMax == "init" then Ok(init)
    else if ifReachMax == "last" then Ok(last)
    else Fail(SyntaxError)
  }

  /** The value is at most the threshold or the initial chroma is: the initial guess is returned at once. */
  predicate ExitsEarly(yTable: seq<real>, lstar: real, initChroma: real, threshold: real)
    requires IsValueTable(yTable)
  {
    LToMunsellValue(yTable, lstar) <= threshold || initChroma <= threshold
  }

  /** Where the loop of the inverter ends when it is entered. */
  function LoopOutcome(forward: ForwardMap, yTable: seq<real>, lstar: real, cstarab: real, hab: real,
                       initHue100: real, initChroma: real, opts: InvertOptions): Outcome
    requires IsValueTable(yTable)
  {
    Iterate(forward, cstarab, hab, LToMunsellValue(yTable, lstar), opts.threshold, opts.factor,
            initHue100, initChroma, IterationBound(opts.maxIteration))
  }

  /**
   * What invertMhvcToLchab returns. Every result carries the value lToMunsellValue(L*); an
   * early exit returns the initial guess; any other result has a non-negative chroma when
   * the threshold is non-negative; the only failures are the two exhaustion errors.
   */
  function Inversion(forward: ForwardMap, yTable: seq<real>, lstar: real, cstarab: real, hab: real,
                     initHue100: real, initChroma: real, opts: InvertOptions): (r: Result<Vec3>)
    requires IsValueTable(yTable)
    ensures r.Ok? ==> r.value.x1 == LToMunsellValue(yTable, lstar)
    ensures ExitsEarly(yTable, lstar, initChroma, opts.threshold)
            ==> r == Ok(Vec3(initHue100, LToMunsellValue(yTable, lstar), initChroma))
    ensures !ExitsEarly(yTable, lstar, initChroma, opts.threshold) && opts.threshold >= 0.0 && r.Ok? ==> r.value.x2 >= 0.0
    ensures r.Fail? ==> r.error == IterationLimit || r.error == SyntaxError
  {
    var value := LToMunsellValue(yTable, lstar);
    var init := Vec3(initHue100, value, initChroma);
    if value <= opts.threshold || initChroma <= opts.threshold then
      Ok(init)
    else
      match LoopOutcome(forward, yTable, lstar, cstarab, hab, initHue100, initChroma, opts)
      case Converged(h, c) => Ok(Vec3(Mod(h, 100.0), value, c))
      case Exhausted(h, c) => OnExhaustion(opts.ifReachMax, init, Vec3(h, value, c))
  }

  /**
   * The loop of invertMhvcToLchab over any forward map. `evaluations` counts the calls of the
   * map: at most maxIteration of them, and none on an early exit.
   */
  method InvertWith(forward: ForwardMap, yTable: seq<real>, lstar: real, cstarab: real, hab: real,
                    initHue100: real, initChroma: real, opts: InvertOptions)
    returns (r: Result<Vec3>, ghost evaluations: nat)
    requires IsValueTable(yTable)
    ensures r == Inversion(forward, yTable, lstar, cstarab, hab, initHue100, initChroma, opts)
    ensures evaluations <= IterationBound(opts.maxIteration)
    ensures ExitsEarly(yTable, lstar, initChroma, opts.threshold) ==> evaluations == 0
  {
    evaluations := 0;
    var value := LToMunsellValue(yTable, lstar);
    if value <= opts.threshold || initChroma <= opts.threshold {
      return Ok(Vec3(initHue100, value, initChroma)), evaluations;
    }
    ghost var n := IterationBound(opts.maxIteration);
    ghost var outcome := LoopOutcome(forward, yTable, lstar, cstarab, hab, initHue100, initChroma, opts);
    var hue100 := initHue100;
    var chroma := initChroma;
    var i := 0;
    ghost var remaining: nat := n;
    while i < opts.maxIteration
      invariant 0 <= i <= n && evaluations == i && remaining == n - i
      invariant outcome == Iterate(forward, cstarab, hab, value, opts.threshold, opts.factor, hue100, chroma, remaining)
    {
      var d := Correction(forward, cstarab, hab, hue100, value, chroma);
      evaluations := evaluations + 1;
      if Within(d, opts.threshold) {
        return Ok(Vec3(Mod(hue100, 100.0), value, chroma)), evaluations;
      }
      hue100, chroma := hue100 + Damped(opts.factor, d.x0), Max(0.0, chroma + Damped(opts.factor, d.x1));
      i, remaining := i + 1, remaining - 1;
    }
    if opts.ifReachMax == "error" {
      r := Fail(IterationLimit);
    } else if opts.ifReachMax == "init" {
      r := Ok(Vec3(initHue100, value, initChroma));
    } else if opts.ifReachMax == "last" {
      r := Ok(Vec3(hue100, value, chroma));
    } else {
      r := Fail(SyntaxError);
    }
  }

  /** invertMhvcToLchab: the loop over the forward conversion mhvcToLchab. */
  method InvertMhvcToLchab(m: Transcendental, table: Renotation, yTable: seq<real>, lstar: real, cstarab: real, hab: real,
                           initHue100: real, initChroma: real, opts: InvertOptions)
    returns (r: Result<Vec3>, ghost evaluations: nat)
    requires table.Valid() && IsValueTable(yTable)
    ensures r == Inversion(Forward(m, table), yTable, lstar, cstarab, hab, initHue100, initChroma, opts)
    ensures evaluations <= IterationBound(opts.maxIteration)
    ensures ExitsEarly(yTable, lstar, initChroma, opts.threshold) ==> evaluations == 0
  {
    r, evaluations := InvertWith(Forward(m, table), yTable, lstar, cstarab, hab, initHue100, initChroma, opts);
  }

  /**
   * For a hue-periodic map, a converged result has its hue in [0, 100) and both corrections
   * there within the threshold.
   */
  lemma InversionConverged(forward: ForwardMap, yTable: seq<real>, lstar: real, cstarab: real, hab: real,
                           initHue100: real, initChroma: real, opts: InvertOptions)
    requires IsValueTable(yTable) && HuePeriodic(forward)
    requires !ExitsEarly(yTable, lstar, initChroma, opts.threshold)
    requires LoopOutcome(forward, yTable, lstar, cstarab, hab, initHue100, initChroma, opts).Converged?
    ensures var r := Inversion(forward, yTable, lstar, cstarab, hab, initHue100, initChroma, opts);
      && r.Ok? && 0.0 <= r.value.x0 < 100.0
      && Within(Correction(forward, cstarab, hab, r.value.x0, r.value.x1, r.value.x2), opts.threshold)
  {
    var value := LToMunsellValue(yTable, lstar);
    var o := LoopOutcome(forward, yTable, lstar, cstarab, hab, initHue100, initChroma, opts);
    assert forward(Mod(o.hue100, 100.0), value, o.chroma) == forward(o.hue100, value, o.chroma);
  }

  /**
   * Out of iterations: 'error' fails, 'init' gives the initial guess, 'last' the last
   * iterate with its hue not reduced, and any other specifier is a syntax error.
   */
  lemma InversionExhausted(forward: ForwardMap, yTable: seq<real>, lstar: real, cstarab: real, hab: real,
                           initHue100: real, initChroma: real, opts: InvertOptions)
    requires IsValueTable(yTable)
    requires !ExitsEarly(yTable, lstar, initChroma, opts.threshold)
    requires LoopOutcome(forward, yTable, lstar, cstarab, hab, initHue100, initChroma, opts).Exhausted?
    ensures var value := LToMunsellValue(yTable, lstar);
      var last := LoopOutcome(forward, yTable, lstar, cstarab, hab, initHue100, initChroma, opts);
      var r := Inversion(forward, yTable, lstar, cstarab, hab, initHue100, initChroma, opts);
      && (opts.ifReachMax == "error" ==> r == Fail(IterationLimit))
      && (opts.ifReachMax == "init" ==> r == Ok(Vec3(initHue100, value, initChroma)))
      && (opts.ifReachMax == "last" ==> r == Ok(Vec3(last.hue100, value, last.chroma)))
      && (opts.ifReachMax !in ["error", "init", "last"] ==> r == Fail(SyntaxError))
  {
  }

  /** The specifier is read only once the loop has run out: otherwise any specifier gives the same result. */
  lemma SpecifierReadOnExhaustion(forward: ForwardMap, yTable: seq<real>, lstar: real, cstarab: real, hab: real,
                                  initHue100: real, initChroma: real, opts: InvertOptions, other: string)
    requires IsValueTable(yTable)
    requires ExitsEarly(yTable, lstar, initChroma, opts.threshold)
             || LoopOutcome(forward, yTable, lstar, cstarab, hab, initHue100, initChroma, opts).Converged?
    ensures Inversion(forward, yTable, lstar, cstarab, hab, initHue100, initChroma, opts.(ifReachMax := other))
         == Inversion(forward, yTable, lstar, cstarab, hab, initHue100, initChroma, opts)
  {
  }

  /** With no iterations allowed and no early exit, the result is the exhaustion action on the initial guess. */
  lemma NoIterations(forward: ForwardMap, yTable: seq<real>, lstar: real, cstarab: real, hab: real,
                     initHue100: real, initChroma: real, opts: InvertOptions)
    requires IsValueTable(yTable)
    requires !ExitsEarly(yTable, lstar, initChroma, opts.threshold) && opts.maxIteration <= 0
    ensures var init := Vec3(initHue100, LToMunsellValue(yTable, lstar), initChroma);
      Inversion(forward, yTable, lstar, cstarab, hab, initHue100, initChroma, opts) == OnExhaustion(opts.ifReachMax, init, init)
  {
  }

  // ---------------------------------------------------------------- LCHab to Munsell

  /** The inverter of mhvcToLchab started from lchabToMhvc's initial guess: hab scaled to hue100 and C*ab to chroma. */
  function Inverted(m: Transcendental, table: Renotation, yTable: seq<real>, lch: Vec3, opts: InvertOptions): (r: Result<Vec3>)
    requires table.Valid() && IsValueTable(yTable)
    ensures ExitsEarly(yTable, lch.x0, CstarToChroma(lch.x1), opts.threshold)
            ==> r == Ok(Vec3(DegreesToHue100(lch.x2), LToMunsellValue(yTable, lch.x0), CstarToChroma(lch.x1)))
  {
    Inversion(Forward(m, table), yTable, lch.x0, lch.x1, lch.x2, DegreesToHue100(lch.x2), CstarToChroma(lch.x1), opts)
  }

  /** A result of the inverter printed as a Munsell code. */
  function CodeOf(r: Result<Vec3>, digits: nat): (s: Result<string>)
    ensures s.Ok? <==> r.Ok? && digits <= MAX_FIXED_DIGITS
    ensures r.Fail? ==> s == Fail(r.error)
    ensures r.Ok? ==> s == MhvcToMunsell(r.value.x0, r.value.x1, r.value.x2, digits)
  {
    match r
    case Ok(v) => MhvcToMunsell(v.x0, v.x1, v.x2, digits)
    case Fail(e) => Fail(e)
  }

  /** lchabToMhvc: the inverter started from the initial guess. */
  method LchabToMhvc(m: Transcendental, table: Renotation, yTable: seq<real>, lstar: real, cstarab: real, hab: real,
                     opts: InvertOptions)
    returns (r: Result<Vec3>)
    requires table.Valid() && IsValueTable(yTable)
    ensures r == Inverted(m, table, yTable, Vec3(lstar, cstarab, hab), opts)
  {
    ghost var evaluations;
    r, evaluations := InvertMhvcToLchab(m, table, yTable, lstar, cstarab, hab, DegreesToHue100(hab), CstarToChroma(cstarab), opts);
  }

  method LchabToMunsell(m: Transcendental, table: Renotation, yTable: seq<real>, lstar: real, cstarab: real, hab: real,
                        digits: nat, opts: InvertOptions)
    returns (s: Result<string>)
    requires table.Valid() && IsValueTable(yTable)
    ensures s == CodeOf(Inverted(m, table, yTable, Vec3(lstar, cstarab, hab), opts), digits)
  {
    var r := LchabToMhvc(m, table, yTable, lstar, cstarab, hab, opts);
    s := CodeOf(r, digits);
  }

  // ---------------------------------------------------------------- pipelines into the inverter

  method LabToMhvc(m: Transcendental, table: Renotation, yTable: seq<real>, lstar: real, astar: real, bstar: real,
                   opts: InvertOptions)
    returns (r: Result<Vec3>)
    requires table.Valid() && IsValueTable(yTable)
    ensures r == Inverted(m, table, yTable, LabToLchab(m, lstar, astar, bstar), opts)
  {
    var lch := LabToLchab(m, lstar, astar, bstar);
    r := LchabToMhvc(m, table, yTable, lch.x0, lch.x1, lch.x2, opts);
  }

  method LabToMunsell(m: Transcendental, table: Renotation, yTable: seq<real>, lstar: real, astar: real, bstar: real,
                      digits: nat, opts: InvertOptions)
    returns (s: Result<string>)
    requires table.Valid() && IsValueTable(yTable)
    ensures s == CodeOf(Inverted(m, table, yTable, LabToLchab(m, lstar, astar, bstar), opts), digits)
  {
    var r := LabToMhvc(m, table, yTable, lstar, astar, bstar, opts);
    s := CodeOf(r, digits);
  }

  /** XYZ under the given illuminant, adapted to C by its Bradford matrix and then taken to Lab under C. */
  function XyzToLabUnderC(m: Transcendental, X: real, Y: real, Z: real, illuminant: Illuminant): Vec3
  {
    var xyz := MultMatrixVector(illuminant.catMatrixThisToC, Vec3(X, Y, Z));
    XyzToLab(m, xyz.x0, xyz.x1, xyz.x2, ILLUMINANT_C)
  }

  method XyzToMhvc(m: Transcendental, table: Renotation, yTable: seq<real>, X: real, Y: real, Z: real,
                   illuminant: Illuminant, opts: InvertOptions)
    returns (r: Result<Vec3>)
    requires table.Valid() && IsValueTable(yTable)
    ensures var lab := XyzToLabUnderC(m, X, Y, Z, illuminant);
      r == Inverted(m, table, yTable, LabToLchab(m, lab.x0, lab.x1, lab.x2), opts)
  {
    var lab := XyzToLabUnderC(m, X, Y, Z, illuminant);
    r := LabToMhvc(m, table, yTable, lab.x0, lab.x1, lab.x2, opts);
  }

  method XyzToMunsell(m: Transcendental, table: Renotation, yTable: seq<real>, X: real, Y: real, Z: real,
                      illuminant: Illuminant, digits: nat, opts: InvertOptions)
    returns (s: Result<string>)
    requires table.Valid() && IsValueTable(yTable)
    ensures var lab := XyzToLabUnderC(m, X, Y, Z, illuminant);
      s == CodeOf(Inverted(m, table, yTable, LabToLchab(m, lab.x0, lab.x1, lab.x2), opts), digits)
  {
    var r := XyzToMhvc(m, table, yTable, X, Y, Z, illuminant, opts);
    s := CodeOf(r, digits);
  }

  /** Linear RGB to XYZ under the space's own illuminant, then on as XYZ. */
  method LinearRgbToMhvc(m: Transcendental, table: Renotation, yTable: seq<real>, lr: real, lg: real, lb: real,
                         rgbSpace: RgbSpace, opts: InvertOptions)
    returns (r: Result<Vec3>)
    requires table.Valid() && IsValueTable(yTable)
    ensures var xyz := LinearRgbToXyz(lr, lg, lb, rgbSpace);
      var lab := XyzToLabUnderC(m, xyz.x0, xyz.x1, xyz.x2, rgbSpace.illuminant);
      r == Inverted(m, table, yTable, LabToLchab(m, lab.x0, lab.x1, lab.x2), opts)
  {
    var xyz := LinearRgbToXyz(lr, lg, lb, rgbSpace);
    r := XyzToMhvc(m, table, yTable, xyz.x0, xyz.x1, xyz.x2, rgbSpace.illuminant, opts);
  }

  method LinearRgbToMunsell(m: Transcendental, table: Renotation, yTable: seq<real>, lr: real, lg: real, lb: real,
                            rgbSpace: RgbSpace, digits: nat, opts: InvertOptions)
    returns (s: Result<string>)
    requires table.Valid() && IsValueTable(yTable)
    ensures var xyz := LinearRgbToXyz(lr, lg, lb, rgbSpace);
      var lab := XyzToLabUnderC(m, xyz.x0, xyz.x1, xyz.x2, rgbSpace.illuminant);
      s == CodeOf(Inverted(m, table, yTable, LabToLchab(m, lab.x0, lab.x1, lab.x2), opts), digits)
  {
    var r := LinearRgbToMhvc(m, table, yTable, lr, lg, lb, rgbSpace, opts);
    s := CodeOf(r, digits);
  }

  /** Gamma-encoded RGB, linearised by the space's curve, then on as linear RGB. */
  method RgbToMhvc(m: Transcendental, table: Renotation, yTable: seq<real>, r0: real, g0: real, b0: real,
                   rgbSpace: RgbSpace, opts: InvertOptions)
    returns (r: Result<Vec3>)
    requires table.Valid() && IsValueTable(yTable)
    ensures var lin := RgbToLinearRgb(r0, g0, b0, rgbSpace);
      var xyz := LinearRgbToXyz(lin.x0, lin.x1, lin.x2, rgbSpace);
      var lab := XyzToLabUnderC(m, xyz.x0, xyz.x1, xyz.x2, rgbSpace.illuminant);
      r == Inverted(m, table, yTable, LabToLchab(m, lab.x0, lab.x1, lab.x2), opts)
  {
    var lin := RgbToLinearRgb(r0, g0, b0, rgbSpace);
    r := LinearRgbToMhvc(m, table, yTable, lin.x0, lin.x1, lin.x2, rgbSpace, opts);
  }

  method RgbToMunsell(m: Transcendental, table: Renotation, yTable: seq<real>, r0: real, g0: real, b0: real,
                      rgbSpace: RgbSpace, digits: nat, opts: InvertOptions)
    returns (s: Result<string>)
    requires table.Valid() && IsValueTable(yTable)
    ensures var lin := RgbToLinearRgb(r0, g0, b0, rgbSpace);
      var xyz := LinearRgbToXyz(lin.x0, lin.x1, lin.x2, rgbSpace);
      var lab := XyzToLabUnderC(m, xyz.x0, xyz.x1, xyz.x2, rgbSpace.illuminant);
      s == CodeOf(Inverted(m, table, yTable, LabToLchab(m, lab.x0, lab.x1, lab.x2), opts), digits)
  {
    var r := RgbToMhvc(m, table, yTable, r0, g0, b0, rgbSpace, opts);
    s := CodeOf(r, digits);
  }

  /** 8-bit RGB divided by 255, then on as RGB. */
  method Rgb255ToMhvc(m: Transcendental, table: Renotation, yTable: seq<real>, r255: real, g255: real, b255: real,
                      rgbSpace: RgbSpace, opts: InvertOptions)
    returns (r: Result<Vec3>)
    requires table.Valid() && IsValueTable(yTable)
    ensures var rgb := Rgb255ToRgb(r255, g255, b255);
      var lin := RgbToLinearRgb(rgb.x0, rgb.x1, rgb.x2, rgbSpace);
      var xyz := LinearRgbToXyz(lin.x0, lin.x1, lin.x2, rgbSpace);
      var lab := XyzToLabUnderC(m, xyz.x0, xyz.x1, xyz.x2, rgbSpace.illuminant);
      r == Inverted(m, table, yTable, LabToLchab(m, lab.x0, lab.x1, lab.x2), opts)
  {
    var rgb := Rgb255ToRgb(r255, g255, b255);
    r := RgbToMhvc(m, table, yTable, rgb.x0, rgb.x1, rgb.x2, rgbSpace, opts);
  }

  method Rgb255ToMunsell(m: Transcendental, table: Renotation, yTable: seq<real>, r255: real, g255: real, b255: real,
                         rgbSpace: RgbSpace, digits: nat, opts: InvertOptions)
    returns (s: Result<string>)
    requires table.Valid() && IsValueTable(yTable)
    ensures var rgb := Rgb255ToRgb(r255, g255, b255);
      var lin := RgbToLinearRgb(rgb.x0, rgb.x1, rgb.x2, rgbSpace);
      var xyz := LinearRgbToXyz(lin.x0, lin.x1, lin.x2, rgbSpace);
      var lab := XyzToLabUnderC(m, xyz.x0, xyz.x1, xyz.x2, rgbSpace.illuminant);
      s == CodeOf(Inverted(m, table, yTable, LabToLchab(m, lab.x0, lab.x1, lab.x2), opts), digits)
  {
    var r := Rgb255ToMhvc(m, table, yTable, r255, g255, b255, rgbSpace, opts);
    s := CodeOf(r, digits);
  }

  /** A hex code read as RGB, then on as RGB; a malformed code is a syntax error before any iteration. */
  method HexToMhvc(m: Transcendental, table: Renotation, yTable: seq<real>, hex: string, rgbSpace: RgbSpace, opts: InvertOptions)
    returns (r: Result<Vec3>)
    requires table.Valid() && IsValueTable(yTable)
    ensures HexToRgb(hex).Fail? ==> r == Fail(SyntaxError)
    ensures HexToRgb(hex).Ok? ==>
      var rgb := HexToRgb(hex).value;
      var lin := RgbToLinearRgb(rgb.x0, rgb.x1, rgb.x2, rgbSpace);
      var xyz := LinearRgbToXyz(lin.x0, lin.x1, lin.x2, rgbSpace);
      var lab := XyzToLabUnderC(m, xyz.x0, xyz.x1, xyz.x2, rgbSpace.illuminant);
      r == Inverted(m, table, yTable, LabToLchab(m, lab.x0, lab.x1, lab.x2), opts)
  {
    var parsed := HexToRgb(hex);
    match parsed {
      case Fail(e) =>
        r := Fail(e);
      case Ok(rgb) =>
        r := RgbToMhvc(m, table, yTable, rgb.x0, rgb.x1, rgb.x2, rgbSpace, opts);
    }
  }

  method HexToMunsell(m: Transcendental, table: Renotation, yTable: seq<real>, hex: string, rgbSpace: RgbSpace,
                      digits: nat, opts: InvertOptions)
    returns (s: Result<string>)
    requires table.Valid() && IsValueTable(yTable)
    ensures HexToRgb(hex).Fail? ==> s == Fail(SyntaxError)
    ensures HexToRgb(hex).Ok? ==>
      var rgb := HexToRgb(hex).value;
      var lin := RgbToLinearRgb(rgb.x0, rgb.x1, rgb.x2, rgbSpace);
      var xyz := LinearRgbToXyz(lin.x0, lin.x1, lin.x2, rgbSpace);
      var lab := XyzToLabUnderC(m, xyz.x0, xyz.x1, xyz.x2, rgbSpace.illuminant);
      s == CodeOf(Inverted(m, table, yTable, LabToLchab(m, lab.x0, lab.x1, lab.x2), opts), digits)
  {
    var r := HexToMhvc(m, table, yTable, hex, rgbSpace, opts);
    s := CodeOf(r, digits);
  }
}
