# munsell.js core in Dafny

This project models the conversion engine of munsell.js. It covers four parts of the library:

- the circle arithmetic it is built on (`src/arithmetic.ts`);
- the CIE colour spaces it converts through (`src/colorspace.ts`): Lab, LCHab, XYZ, linear RGB, RGB, 0–255 RGB and hex codes;
- the forward conversion from Munsell HVC, which interpolates the Munsell Renotation Data, and the Munsell code reader and printer (`src/convert.ts`);
- the inverse conversion, an iterative solver, and the `*ToMhvc` / `*ToMunsell` wrappers built on it (`src/invert.ts`).

## How the model is set up

- **Numbers.** A JavaScript number is an exact `real`. Where the library parses a string, a number is a `Num` (`Finite(r)` or `NaN`).
- **JavaScript semantics.** The JavaScript operations the code relies on are written out in `JsBuiltins`:
  - `%`, which truncates toward zero;
  - `Math.round`, which rounds halves up;
  - `Number.prototype.toFixed`;
  - `Number.prototype.toString(16)`;
  - `parseInt(s, 16)`;
  - the 32-bit `>>` / `&` field extraction.
- **Transcendental functions.** `Math.sqrt`, `Math.atan2`, `Math.cos`, `Math.sin` and `Math.pow` are the fields of a `Transcendental` value `m`. The functions that need them take `m` as a parameter.
  - A lemma that needs an algebraic fact about one of them states it as a precondition. Examples: `PowIsCubeRoot(m)` for the cube root in CIE L*, and `PowInvertible(m, gamma)` for the gamma curves.
- **Tables.** The engine reads two tables. Both are parameters rather than data:
  - the Munsell Renotation Data is a `Renotation` value, whose `Valid()` states the dimensions the engine indexes, L* increasing in value, C*ab ≥ 0 and hab in [0, 360);
  - the Y-to-value table is a `seq<real>` of 2001 entries.
- **String-to-number conversion.** `Number()` as used by the code reader is a parameter `toNumber: string -> Num`.
- **Exceptions.** Exceptions become `Result` values: `SyntaxError`, `IterationLimit` (the solver's "did not converge" error) and `RangeError` (toFixed asked for more than 100 digits).
- **The solver loop.** `invertMhvcToLchab` is an imperative method with a `while` loop. It is proved equal to a recursive specification of the same iteration.

**The printer's zero-prefix rule.** `mhvcToMunsell` tests `huePrefix === 0` before any rounding (`src/convert.ts:497-501`): only an exact zero prefix is shown as 10 of the previous designator. The model does the same, so a prefix of 0.3 printed with `digits = 1` gives `"0R …"`, not `"10RP …"`.

## Model

| member | source | states |
|---|---|---|
| JsBuiltins.JsRem | src/arithmetic.ts:17 | JS `%`: the dividend minus the result is a whole multiple of the divisor, the quotient truncated toward zero |
| JsBuiltins.JsRemBounds | src/arithmetic.ts:17 | for a positive divisor the remainder is in [0, d) for a non-negative dividend and in (-d, 0] for a negative one |
| JsBuiltins.Round | src/colorspace.ts:210 | Math.round: the integer nearest to x, halves rounded up |
| JsBuiltins.RoundOfInteger | src/colorspace.ts:210 | Math.round leaves integers unchanged |
| JsBuiltins.FixedMagnitude | src/convert.ts:500-503 | the digits toFixed prints are \|x\|·10^f rounded to the nearest integer |
| JsBuiltins.FixedValueClose | src/convert.ts:500-503 | the number a toFixed string denotes is within half a unit of its last place of x |
| JsBuiltins.FixedValueOfInteger | src/convert.ts:500 | toFixed of a non-negative integer denotes that integer |
| JsBuiltins.ToFixed | src/convert.ts:500-503 | toFixed gives a non-empty string of digits, '.' and '-' |
| JsBuiltins.FixedZeroNumeral | src/convert.ts:504 | parseFloat(x.toFixed(f)) === 0 if and only if the rounded magnitude is 0, so "-0.0" counts as zero |
| JsBuiltins.ToHexString | src/colorspace.ts:224 | toString(16) of a natural gives lower-case hex digits, one digit exactly when n < 16 and two when 16 ≤ n < 256 |
| JsBuiltins.ToHexStringValue | src/colorspace.ts:224 | the hex string toString(16) gives denotes n |
| JsBuiltins.TrimStart | src/colorspace.ts:232 | parseInt skips a suffix-preserving run of leading white space and stops at a non-space |
| JsBuiltins.HexPrefix | src/colorspace.ts:232 | parseInt reads the longest prefix of hex digits and stops at the first non-digit |
| JsBuiltins.ParseInt16 | src/colorspace.ts:232 | parseInt(s, 16) yields NaN or an integer |
| JsBuiltins.ParseInt16OfDigits | src/colorspace.ts:232 | on a non-empty string of hex digits parseInt(s, 16) is the numeral's value |
| JsBuiltins.BitField | src/colorspace.ts:236-242 | `(num >> shift) & mask` yields a field below 2^width |
| JsBuiltins.HexValueConcat | src/colorspace.ts:232 | the value of a concatenation of hex numerals is the first shifted by the second's length plus the second |
| JsBuiltins.BitFieldOfParts | src/colorspace.ts:236-242 | shifting and masking the value of a numeral of at most 8 digits extracts exactly the middle digit group |
| Arithmetic.Mod | src/arithmetic.ts:16-23 | for a positive divisor the result is in [0, d) |
| Arithmetic.ModCongruent | src/arithmetic.ts:16-23 | mod differs from the dividend by a whole number of divisors |
| Arithmetic.ModUnique | src/arithmetic.ts:16-23 | a value in [0, d) congruent to a is mod(a, d): the result is unique |
| Arithmetic.ModOfCongruent | src/arithmetic.ts:16-23 | congruent dividends have the same mod |
| Arithmetic.ModPeriodic | src/arithmetic.ts:16-23 | adding whole laps does not change mod |
| Arithmetic.ModOfReduced | src/arithmetic.ts:16-23 | mod is the identity on [0, d) |
| Arithmetic.Clamp | src/arithmetic.ts:25-27 | the result is in [min, max]; it is x inside, min below and max above |
| Arithmetic.CartesianToPolar | src/arithmetic.ts:29-32 | the angle is reduced into [0, perimeter) |
| Arithmetic.PolarToCartesian | src/arithmetic.ts:34-38 | radius 0 gives the origin whatever the angle |
| Arithmetic.CircularLerp | src/arithmetic.ts:40-65 | amount 1 gives theta2 reduced, amount 0 and equal ends give theta1 reduced |
| Arithmetic.CircularLerpOnArc | src/arithmetic.ts:40-65 | the result is reduced, lies on the counterclockwise arc from theta1 to theta2, and its distance from theta1 is amount times the arc length |
| Arithmetic.CircularLerpSplitsArc | src/arithmetic.ts:40-65 | the distances from theta1 to the result and from the result to theta2 add up to the arc length |
| Arithmetic.CircularDelta | src/arithmetic.ts:67-81 | the signed difference lies in (-p/2, p/2] and theta2 plus it is congruent to theta1 |
| Arithmetic.CircularDeltaUnique | src/arithmetic.ts:67-81 | any delta in (-p/2, p/2] making theta2 + delta congruent to theta1 is circularDelta: the result is the unique shortest signed turn |
| Arithmetic.MultMatrixMatrixVector | src/arithmetic.ts:84-110 | multiplying by a matrix product is multiplying by each factor in turn |
| Arithmetic.IdentityNeutral | src/arithmetic.ts:84-110 | the identity matrix is neutral for both products |
| Colorspace.KneeIsCube | src/colorspace.ts:10-12 | the constants join the linear and cube-root branches of f at the knee and make 1/CONST2 = CONST4 |
| Colorspace.FInverseOfF | src/colorspace.ts:14-21 | the piecewise inverse of functionF undoes it when pow gives cube roots |
| Colorspace.FOfFInverse | src/colorspace.ts:14-21 | functionF undoes the piecewise inverse |
| Colorspace.LabToLchab | src/colorspace.ts:23-25 | L* is kept, C*ab is the length of (a*, b*) and hab is in [0, 360) |
| Colorspace.LchabToLab | src/colorspace.ts:27-29 | L* is kept and zero chroma gives a* = b* = 0 |
| Colorspace.LToYEnds | src/colorspace.ts:77-80 | L* 0 is Y 0 and L* 100 is Y 1 |
| Colorspace.LToYStrictlyIncreasing | src/colorspace.ts:77-80 | Y is strictly increasing in L* across the linear and cubic segments |
| Colorspace.LabToXyz | src/colorspace.ts:82-98 | Y depends on L* alone, and a neutral colour is the illuminant's white scaled by Y |
| Colorspace.WhiteOfIlluminantC | src/colorspace.ts:59-98 | L* 100 with a* = b* = 0 is exactly illuminant C's white point |
| Colorspace.XyzToLab | src/colorspace.ts:100-103 | a colour proportional to the white point has a* = b* = 0 |
| Colorspace.XyzToLabToXyz | src/colorspace.ts:82-103 | labToXyz inverts xyzToLab for a positive white point when pow gives cube roots |
| Colorspace.LabToXyzToLab | src/colorspace.ts:82-103 | xyzToLab inverts labToXyz for a positive white point when pow gives cube roots |
| Colorspace.GammaCurvesOdd | src/colorspace.ts:105-118 | the gamma linearizer and delinearizer are odd functions |
| Colorspace.GammaRoundTrip | src/colorspace.ts:105-118 | the linearizer undoes the delinearizer when pow(x, g) and pow(x, 1/g) are inverse |
| Colorspace.SrgbCurvesOdd | src/colorspace.ts:155-174 | both sRGB transfer curves are odd functions |
| Colorspace.SrgbLinearSegmentRoundTrip | src/colorspace.ts:155-174 | on their linear segments the two sRGB curves undo each other |
| Colorspace.XyzLinearRgbRoundTrip | src/colorspace.ts:192-198 | XYZ → linear RGB → XYZ multiplies by the product of the space's two matrices |
| Colorspace.AdobeRgbRoundTrip | src/colorspace.ts:177-206 | in Adobe RGB, delinearizing a linearized colour gives it back |
| Colorspace.Quantize | src/colorspace.ts:208-214 | the result is an integer; clamped it is in [0, 255]; in range it is x·255 rounded; out of range it is the nearer bound |
| Colorspace.QuantizeRoundTrip | src/colorspace.ts:208-218 | a 0–255 colour scaled to [0, 1] and quantised again is itself, clamped to [0, 255] when clamping |
| Colorspace.HexByte | src/colorspace.ts:224-225 | a channel prints as two lower-case hex digits whose value is the clamped quantised channel |
| Colorspace.RgbToHex | src/colorspace.ts:220-229 | the code is '#' plus three lower-case digit pairs whose values are the clamped quantised channels |
| Colorspace.HexToRgb | src/colorspace.ts:231-246 | fails with SyntaxError if and only if the length is not 4, 5, 7 or 9; a successful result has channels in [0, 1] |
| HexLemmas.Fields3 | src/colorspace.ts:237-238 | '#RGB': the three 4-bit fields are the three digits |
| HexLemmas.Fields4 | src/colorspace.ts:241-242 | '#RGBA': the fields read are the first three digits and the alpha digit is skipped |
| HexLemmas.Fields6 | src/colorspace.ts:235-236 | '#RRGGBB': the three 8-bit fields are the three digit pairs |
| HexLemmas.Fields8 | src/colorspace.ts:239-240 | '#RRGGBBAA': the fields read are the first three pairs and the alpha pair is skipped |
| HexLemmas.HexToRgbOfLength7 | src/colorspace.ts:231-236 | a 7-character code of hex digits decodes to its three pairs over 255 |
| HexLemmas.HexToRgbOfLength9 | src/colorspace.ts:231-240 | a 9-character code decodes to its first three pairs over 255 |
| HexLemmas.HexToRgbOfLength4 | src/colorspace.ts:231-238 | a 4-character code decodes to its three digits over 15 |
| HexLemmas.HexToRgbOfLength5 | src/colorspace.ts:231-242 | a 5-character code decodes to its first three digits over 15 |
| HexLemmas.RgbToHexToRgb | src/colorspace.ts:220-246 | decoding an encoded colour gives each channel quantised to a byte, over 255 |
| HexLemmas.HexToRgbToHex | src/colorspace.ts:220-246 | re-encoding a decoded '#RRGGBB' code gives the code back, lower-cased |
| HexLemmas.LowerCase | src/colorspace.ts:232 | lower-casing keeps a hex digit's value |
| Convert.MunsellValueToYEnds | src/convert.ts:56-58 | Munsell value 0 is Y 0 and value 10 is Y 1 |
| Convert.MunsellValueToLEnds | src/convert.ts:66-68 | value 0 is L* 0 and, with a true cube root, value 10 is L* 100 |
| Convert.LToYOfMunsellValue | src/convert.ts:56-68 | lToY of munsellValueToL(v) is munsellValueToY(v): the two conversions agree |
| Convert.ChAt | src/convert.ts:77-124 | a Renotation entry has C*ab ≥ 0 and hab in [0, 360) |
| Convert.LAtIncreasing | src/convert.ts:77-124 | the tabulated L* strictly increases with value |
| Convert.AllIntegerCase | src/convert.ts:77-124 | L* is the tabulated one; up to chroma 50 the [C*ab, hab] is the table entry; beyond it the hab of chroma 50 and its C*ab scaled by chroma/50 |
| Convert.LowerSector | src/convert.ts:127-152 | the lower neighbouring sector is one of the 40 |
| Convert.UpperSector | src/convert.ts:127-152 | the upper neighbouring sector is one of the 40 |
| Convert.HueFraction | src/convert.ts:127-152 | the position between the two sectors is in [0, 1) |
| Convert.ValueChromaIntegerCase | src/convert.ts:127-152 | L* is the tabulated one, C*ab ≥ 0 and hab is in [0, 360) |
| Convert.HueLevelKeepsLower | src/convert.ts:133-143 | when the two neighbouring sectors coincide, have equal hab, or are half a turn or more apart counterclockwise, the lower sector's result is returned |
| Convert.HueLevelBlends | src/convert.ts:144-149 | an unfolding of the blend branch, used by the lemmas below: otherwise the result is the hue blend of the two neighbours at the hue fraction |
| Convert.HueLevelAngle | src/convert.ts:144-149 | an unfolding of the blend branch, used by HueLevelOnArc: the blended hab is the counterclockwise interpolation of the neighbours' hab |
| Convert.HueLevelOnArc | src/convert.ts:144-149 | the blended hab lies on the arc between the neighbours' hab |
| Convert.HueLevelChroma | src/convert.ts:144-149 | the blended C*ab is the convex combination of the neighbours' C*ab at the hue fraction |
| Convert.HueLevelChromaBetween | src/convert.ts:144-149 | the blended C*ab lies between the neighbours' C*ab |
| Convert.HueLevelLightness | src/convert.ts:144-149 | the blend keeps the tabulated L* |
| Convert.HueBlend | src/convert.ts:144-149 | the blend keeps L*, has C*ab ≥ 0 and hab in [0, 360) |
| Convert.ArcWeightedChromaBlends | src/convert.ts:144-149 | weighting C*ab by the hab arcs equals the convex combination at the hue fraction |
| Convert.ArcWeightedChromaBetween | src/convert.ts:144-149 | the arc-weighted C*ab lies between the two C*ab |
| Convert.HueAngleArcs | src/arithmetic.ts:40-65 | the interpolated hab splits the arc into parts whose first is the fraction of the whole |
| Convert.ConvexBetween | src/convert.ts:144-149 | a convex combination lies between its ends |
| Convert.ValueIntegerCase | src/convert.ts:155-184 | L* is the tabulated one, hab is in [0, 360), and an integer half-chroma gives the value-and-chroma-integer case |
| Convert.GeneralCase | src/convert.ts:186-227 | hab is in [0, 360); an integer value gives the value-integer case; any other value has L* = munsellValueToL(value) |
| Convert.ValueBlend | src/convert.ts:204-226 | the value blend carries the target L* and a hab in [0, 360) |
| Convert.DarkestLevel | src/convert.ts:192-203 | below the first level, L* is computed from the value and [C*ab, hab] are those of the first level |
| Convert.MhvcToLchab | src/convert.ts:240-249 | hab is in [0, 360) |
| Convert.MhvcToLchabHuePeriodic | src/convert.ts:240-241 | hues that differ by whole turns of 100 give the same LCHab |
| Convert.HueSectorPeriodic | src/convert.ts:241 | the 40-sector hue is periodic in hue100 with period 100 |
| Convert.MhvcToLchabValueClamped | src/convert.ts:242 | the value is clamped into [0, 10] before use |
| Convert.MhvcToLchabChromaClamped | src/convert.ts:243 | a negative chroma behaves as chroma 0 |
| Convert.MhvcToLchabLightness | src/convert.ts:240-249 | at a tabulated value L* is the table's; elsewhere it is munsellValueToL of the clamped value |
| Convert.MhvcToLab | src/convert.ts:302-304 | the Lab L* is the LCHab L* |
| Convert.MhvcToXyzUnderC | src/convert.ts:327-338 | under illuminant C no adaptation is applied, and Y is lToY of the L* |
| Convert.MhvcToRgb255 | src/convert.ts:423-431 | channels are integers, and within [0, 255] when clamping |
| Convert.MhvcToHex | src/convert.ts:456-463 | the code's three pairs are the clamped 0–255 channels |
| MunsellCode.RunLength | src/convert.ts:261-265 | the run length is the longest prefix of the class |
| MunsellCode.FirstIn | src/convert.ts:261-265 | the index is the first character of the class, or the length |
| MunsellCode.Tokens | src/convert.ts:261-264 | every numeric token is non-empty and made of the number characters |
| MunsellCode.TokensKeepTokenChars | src/convert.ts:261-264 | the tokens together are exactly the number characters of the string, in order |
| MunsellCode.FirstUpperRun | src/convert.ts:265-266 | None if and only if there is no capital; otherwise a maximal run of capitals occurring in the code |
| MunsellCode.IndexOf | src/convert.ts:268 | -1 if and only if the name is absent; otherwise the first position of the name |
| MunsellCode.IndexOfDistinct | src/convert.ts:251 | among distinct names the position of a name is its index |
| MunsellCode.HueNamesDistinct | src/convert.ts:251 | the ten hue designators are pairwise distinct |
| MunsellCode.Plus | src/convert.ts:277 | adding to a parsed number keeps NaN and otherwise adds the base |
| MunsellCode.MunsellToMhvc | src/convert.ts:260-279 | fails only with SyntaxError, and succeeds if and only if the designator is N, or a known hue name with three numbers; 'N' gives hue 0, chroma 0 and as value the first number token, or NaN when there is none |
| MunsellCode.ReadDesignated | src/convert.ts:267-278 | succeeds if and only if the designator is N, or a known name with three numbers; 'N' gives [0, the first token's number (NaN if none), 0] |
| MunsellCode.FiniteMhvc | src/convert.ts:287-289 | fails if and only if parsing fails or gives NaN; a NaN is reported as NotANumber; otherwise it is the parsed HVC |
| MunsellCode.HuePrefix | src/convert.ts:494 | the hue prefix is in [0, 10) |
| MunsellCode.HueNumber | src/convert.ts:495 | the canonical hue is 10 times the sector plus the prefix, with the sector in 0..9 |
| MunsellCode.ShownPrefix | src/convert.ts:498-501 | the printed prefix is in (0, 10] |
| MunsellCode.ShownSector | src/convert.ts:498-501 | the printed designator is one of the ten |
| MunsellCode.MhvcToMunsell | src/convert.ts:488-509 | fails, with RangeError, if and only if digits exceeds toFixed's limit of 100; otherwise the code starts with 'N' if and only if the chroma prints as zero |
| MunsellCode.ChromaticPrintCode | src/convert.ts:507 | an unfolding of the printer's chromatic branch, used by the round-trip lemmas: a non-zero chroma prints as 'HW V/C' |
| MunsellCode.AchromaticCodeRoundTrip | src/convert.ts:504-505 | an achromatic code, read back by munsellToMhvc, gives hue 0, the printed value and chroma 0 |
| MunsellCode.ReadAchromaticCode | src/convert.ts:269-270 | 'N V' reads as hue 0, the number V and chroma 0 |
| MunsellCode.ChromaticCodeRoundTrip | src/convert.ts:488-509 | a chromatic code, read back by munsellToMhvc, gives the printed value and chroma and a hue within half a unit of the prefix's last printed place of the canonical hue, on the hue circle |
| MunsellCode.PrintedCodeRoundTrip | src/convert.ts:498-507 | a code printed from a prefix, a designator, a value and a chroma reads back as 10·sector + prefix, value and chroma as printed |
| MunsellCode.ReadChromaticCode | src/convert.ts:267-278 | 'hW v/c' reads as 10·position(W) + h, v and c |
| MunsellCode.PrintedHueClose | src/convert.ts:494-501 | the printed hue is within half a unit of its last place of the canonical hue, on the hue circle |
| MunsellCode.SectorStartHue | src/convert.ts:498-500 | '10' with the previous designator denotes the same hue as prefix 0 with the current one |
| MunsellCode.MunsellToLchab | src/convert.ts:287-289 | succeeds if and only if the code reads as finite HVC, and then is mhvcToLchab of it |
| MunsellCode.MunsellToLab | src/convert.ts:312-314 | succeeds if and only if the code reads as finite HVC, and then is mhvcToLab of it |
| MunsellCode.MunsellToXyz | src/convert.ts:346-348 | succeeds if and only if the code reads as finite HVC, and then is mhvcToXyz of it |
| MunsellCode.MunsellToLinearRgb | src/convert.ts:376-378 | succeeds if and only if the code reads as finite HVC, and then is mhvcToLinearRgb of it |
| MunsellCode.MunsellToRgb | src/convert.ts:406-408 | succeeds if and only if the code reads as finite HVC, and then is mhvcToRgb of it |
| MunsellCode.MunsellToRgb255 | src/convert.ts:441-443 | succeeds if and only if the code reads as finite HVC, and is then mhvcToRgb255 of it: integer channels, in [0, 255] when clamping |
| MunsellCode.MunsellToHex | src/convert.ts:471-473 | succeeds if and only if the code reads as finite HVC, and is then mhvcToHex of it: a '#' and six lower-case hex digits |
| Invert.YToMunsellValue | src/invert.ts:24-36 | Y is clamped; on a sample point the result is that entry; between two it is their convex combination, lying between them |
| Invert.YToMunsellValueClamped | src/invert.ts:24-36 | Y ≤ 0 gives the first entry and Y ≥ 1 the last |
| Invert.YToMunsellValueAtSample | src/invert.ts:24-36 | at Y = i/2000 the result is the table's i-th entry |
| Invert.YToMunsellValueMonotone | src/invert.ts:24-36 | for a non-decreasing table the value is non-decreasing in Y |
| Invert.YToMunsellValueRange | src/invert.ts:24-36 | for a non-decreasing table the value lies between the first and last entries |
| Invert.LToMunsellValue | src/invert.ts:46-48 | for a non-decreasing table the value lies between the first and last entries |
| Invert.LToMunsellValueEnds | src/invert.ts:46-48 | with table ends 0 and 10, L* 0 gives value 0 and L* 100 gives value 10 |
| Invert.LToMunsellValueMonotone | src/invert.ts:46-48 | for a non-decreasing table the value is non-decreasing in L* |
| Invert.IterationBound | src/invert.ts:69 | the loop runs exactly maxIteration times when it is ≥ 0, and not at all when it is ≤ 0 |
| Invert.ForwardHuePeriodic | src/invert.ts:52-95 | the map inverted is periodic in hue100 with period 100 |
| Invert.ReducedHueSameLchab | src/invert.ts:75-76 | reducing a hue into [0, 100) does not change its LCHab |
| Invert.Correction | src/invert.ts:70-74 | the hue correction never exceeds half the hue circle |
| Invert.Iterate | src/invert.ts:67-81 | the loop stops early only at an iterate whose two corrections are within the threshold, and chroma stays non-negative |
| Invert.Inversion | src/invert.ts:52-95 | every result carries lToMunsellValue(L*); an early exit returns the initial guess; any other success has chroma ≥ 0; the only failures are IterationLimit and SyntaxError |
| Invert.InvertWith | src/invert.ts:52-95 | the loop computes Inversion, evaluating the forward map at most maxIteration times and never on an early exit |
| Invert.InvertMhvcToLchab | src/invert.ts:52-95 | the solver over mhvcToLchab computes Inversion |
| Invert.InversionConverged | src/invert.ts:75-76 | a converged result has its hue in [0, 100) and both corrections there within the threshold |
| Invert.InversionExhausted | src/invert.ts:82-94 | out of iterations, 'error' fails, 'init' gives the initial guess, 'last' the last iterate, anything else is a SyntaxError |
| Invert.SpecifierReadOnExhaustion | src/invert.ts:82-94 | ifReachMax matters only when the loop runs out |
| Invert.NoIterations | src/invert.ts:63-94 | with maxIteration ≤ 0 and no early exit, the exhaustion action applies to the initial guess |
| Invert.Inverted | src/invert.ts:136-156 | an early exit returns hab scaled to hue100, the value of L* and C*ab scaled to chroma |
| Invert.CodeOf | src/invert.ts:174-188 | an inverted HVC prints as mhvcToMunsell, a solver failure is passed on, and the result is a code if and only if the solver succeeded and digits ≤ 100 |
| Invert.LchabToMhvc | src/invert.ts:136-156 | the solver started from hab·0.277777777778 (100/360) and C*ab·0.181818181818 (1/5.5) |
| Invert.LchabToMunsell | src/invert.ts:174-188 | that result printed as a Munsell code |
| Invert.LabToMhvc | src/invert.ts:203-219 | Lab converted to LCHab, then solved |
| Invert.LabToMunsell | src/invert.ts:237-251 | Lab converted to LCHab, solved and printed |
| Invert.XyzToMhvc | src/invert.ts:266-283 | XYZ adapted to illuminant C and converted to Lab, then solved |
| Invert.XyzToMunsell | src/invert.ts:302-317 | XYZ adapted to illuminant C, converted, solved and printed |
| Invert.LinearRgbToMhvc | src/invert.ts:333-351 | linear RGB converted to XYZ, then as for XYZ |
| Invert.LinearRgbToMunsell | src/invert.ts:370-385 | linear RGB converted to XYZ, then as for XYZ, printed |
| Invert.RgbToMhvc | src/invert.ts:401-419 | RGB linearized, then as for linear RGB |
| Invert.RgbToMunsell | src/invert.ts:438-453 | RGB linearized, then as for linear RGB, printed |
| Invert.Rgb255ToMhvc | src/invert.ts:480-498 | 0–255 RGB divided by 255, then as for RGB |
| Invert.Rgb255ToMunsell | src/invert.ts:524-539 | 0–255 RGB divided by 255, then as for RGB, printed |
| Invert.HexToMhvc | src/invert.ts:563-572 | a malformed hex code is a SyntaxError; a valid one is decoded, then as for RGB |
| Invert.HexToMunsell | src/invert.ts:595-608 | a malformed hex code is a SyntaxError; a valid one is decoded, solved and printed |

## Left out

- JavaScript floating point: numbers are exact reals. NaN and ±Infinity arising from arithmetic are not modelled, and `mod` requires a non-zero divisor. Rounding error is therefore outside the model, and so are the library's claims of round-trip accuracy "within 1e-6" and of solver convergence, which are empirical.
- `Math.sqrt`, `Math.atan2`, `Math.cos`, `Math.sin`, `Math.pow`: uninterpreted fields of the `Transcendental` parameter. Lemmas that need one of their properties (cube root, inverse powers) take it as a precondition.
- The Munsell Renotation Data and the Y-to-value table: parameters (`Renotation`, `yTable`) constrained by their shape and ordering, not the published numbers. So facts about particular colours are outside the model, and so is the generator script that builds the value table.
- `Number()` in the code reader: the `toNumber` parameter. JavaScript's full numeric-literal grammar is not modelled.
- `Number.prototype.toFixed` for |x| ≥ 1e21, where JavaScript switches to exponential form, is not modelled.
- Strings are sequences of Unicode scalar values, not UTF-16 code units. The regular expressions of the code reader are modelled by their character classes: `[A-Z]` for designators and `[a-z0-9.-]` for number tokens, and Unicode beyond these classes is not distinguished.
- Colorspace.HexToRgb: `hex.length` counts characters, where JavaScript counts UTF-16 code units. A code holding a character outside the Basic Multilingual Plane therefore has a different length: `"#😀a"` has length 4 in JavaScript and decodes to [0, 0, 0], while the model, counting 3 characters, fails with SyntaxError.
- Error messages: exceptions carry only their kind (SyntaxError, IterationLimit, RangeError).
- MunsellCode.MunsellToLchab: when a numeric token of the code does not parse, the model returns Fail(NotANumber). The library does not return NaN throughout. A NaN hue or a NaN value makes mhvcToLchab index the Munsell Renotation tables with NaN, and it throws a TypeError (`src/convert.ts:89-112`). Only a NaN chroma runs through, taking the extrapolation branch, and gives [L*, NaN, NaN]. The same holds for MunsellToLab, MunsellToXyz, MunsellToLinearRgb, MunsellToRgb, MunsellToRgb255 and MunsellToHex, whose NaN results are carried on from that LCHab.
- MunsellCode.MunsellToMhvc: for 'N' with no number the library returns `[0, undefined, 0]`. The model gives a NaN value instead, which later conversions treat as NotANumber.
- JsBuiltins.ToFixed: defined for every digit count. The RangeError JavaScript raises above 100 digits is raised by MunsellCode.MhvcToMunsell, its only caller. `digits` is a `nat`, as the library's documentation requires a non-negative integer: the RangeError of a negative count and the truncation of a fractional one are not modelled.
- MunsellCode.ChromaticCodeRoundTrip: prefix and sector are parameters tied to the hue by preconditions, and the reader's `Number()` is only assumed to read back what toFixed printed.
- Invert.InvertWith: the count of forward evaluations is a ghost out-parameter, since the library does not return it. The same holds for Invert.InvertMhvcToLchab.
- Invert.IterationBound: a non-integer maxIteration is not modelled; it is an `int`.
- Default arguments (`rgbSpace = SRGB`, `illuminant = ILLUMINANT_D65`, `digits = 1`, the solver defaults) are explicit parameters. Only the solver's defaults are also given, as `Invert.DEFAULT_OPTIONS`.
- The public re-export module, CIEDE2000 and the other files outside the four core files are not part of this model.
