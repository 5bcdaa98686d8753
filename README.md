# Calorie estimate endpoint of the fitness tracker, in Dafny

The fitness tracker is a single-page web application. Its only computation is
the `POST /api/calculate-calories` handler. The handler reads `workout` and
`duration` from a JSON body and rejects the request when either is falsy. It
lower-cases and trims the workout name and looks the name up in a fixed table
of MET (metabolic equivalent of task) coefficients, falling back to 5.0. It
then answers with `Math.round(met × 70 × duration / 60)`, the calories burnt
by an assumed 70 kg person, together with the normalised name, the numeric
duration and the coefficient used. Anything that throws on the way is answered
with a generic failure.

The model has three modules:

- `JsSemantics` (`js_semantics.dfy`): the JavaScript the handler relies on.
  It covers the values a JSON body can hold, truthiness and `Number(...)`. It
  also covers `toLowerCase`, `trim` and `Math.round`.
- `CalculateCalories` (`calculate_calories.dfy`): the MET table, the
  70 kg constant, normalisation, lookup, the calorie formula, and the handler
  itself (`Handle` once the fields are read, `Post` for the whole body). The
  three outcomes are `Ok`, `BadRequest` and `InternalError`, which are the
  200, 400 and 500 responses.
- `CalorieProperties` (`calorie_properties.dfy`): what callers can rely on.
  This covers insensitivity to case and surrounding white space, reaching
  every table entry, monotonicity of the estimate, and the worked examples.

Numbers are exact `real`s. Every MET coefficient has one decimal place, so the
formula is computed exactly. `Math.round` is `Floor(x + 1/2)`, which rounds
halves towards +∞ as JavaScript does for negative values too. The handler is
a function of its inputs, so two identical requests get identical answers by
construction.

Some consequences of the code that a reader of the handler might not expect,
all of which the model reproduces:

- A duration string that does not read as a number (`"abc"`) is not
  rejected. It becomes NaN, and the answer is a 200 whose `calories` and
  `duration` are `null` (`UnreadableDurationAnsweredWithNull`).
- The calorie count is not always non-negative. A negative duration is
  truthy and passes validation, so the estimate is negative
  (`NegativeDurationAccepted`). Non-negativity holds for durations of zero
  or more (`CaloriesNonNegative`, `HandleMonotoneInDuration`).
- The answer echoes `Number(duration)`, not the duration as sent. The string
  `"30"` comes back as the number 30.
- The table holds a literal `default` key (5.0). A workout named "Default"
  therefore finds that entry itself, which has the same value as the
  fallback.

## Model

| member | source | states |
|---|---|---|
| `JsSemantics.Truthy` | src/app/api/calculate-calories/route.ts:28 | the `!workout \|\| !duration` test: `undefined`, `null`, `false`, `0` and `""` are falsy, every other value (any object or array included) is truthy |
| `JsSemantics.ToNumber` | src/app/api/calculate-calories/route.ts:43 | `Number(duration)`: a fixed number for `null`, booleans and numbers, the parameter `parse` on a string or on an object's string form, and a throw exactly for an object or array without a callable conversion |
| `JsSemantics.IsWhitespace` | src/app/api/calculate-calories/route.ts:36 | the characters `trim` removes: ECMAScript white space and line terminators |
| `JsSemantics.IsUpper` | src/app/api/calculate-calories/route.ts:36 | the characters `toLowerCase` changes in this model: A to Z and the Latin-1 capitals |
| `CalculateCalories.MetValues` | src/app/api/calculate-calories/route.ts:4-19 | the 14 entries of `MET_VALUES`, the key `default` with 5.0 among them |
| `CalculateCalories.DefaultWeight` | src/app/api/calculate-calories/route.ts:22 | `DEFAULT_WEIGHT`, 70 kg |
| `JsSemantics.LeadingSpace` | src/app/api/calculate-calories/route.ts:36 | the number of characters `trim` drops at the front: each is white space, and the character after them is not |
| `JsSemantics.TrailingSpace` | src/app/api/calculate-calories/route.ts:36 | the number of characters `trim` drops at the back: each is white space, and the character before them is not |
| `JsSemantics.LeadingSpaceIsWhitespace` | src/app/api/calculate-calories/route.ts:36 | the front part `trim` drops is all white space |
| `JsSemantics.TrailingSpaceIsWhitespace` | src/app/api/calculate-calories/route.ts:36 | the back part `trim` drops is all white space |
| `JsSemantics.Trim` | src/app/api/calculate-calories/route.ts:36 | the trimmed name has no white space at either end |
| `JsSemantics.TrimDecomposes` | src/app/api/calculate-calories/route.ts:36 | every string is its trimmed form with only white space before and after it |
| `JsSemantics.LeadingSpaceAppend` | src/app/api/calculate-calories/route.ts:36 | white space put in front of a string is all dropped, and nothing more from the string itself |
| `JsSemantics.TrailingSpaceAppend` | src/app/api/calculate-calories/route.ts:36 | white space put behind a string is all dropped, and nothing more from the string itself |
| `JsSemantics.TrimUnique` | src/app/api/calculate-calories/route.ts:36 | for a tight string t and white space p, q, `trim(p + t + q)` is exactly t; with `TrimDecomposes` this pins `trim` down completely |
| `JsSemantics.AllWhitespaceAppend` | src/app/api/calculate-calories/route.ts:36 | two runs of white space joined are white space |
| `JsSemantics.TrimIgnoresPadding` | src/app/api/calculate-calories/route.ts:36 | adding white space around a name does not change its trimmed form |
| `JsSemantics.TrimIdempotent` | src/app/api/calculate-calories/route.ts:36 | trimming twice is trimming once |
| `JsSemantics.LowerChar` | src/app/api/calculate-calories/route.ts:36 | `toLowerCase` on one character: the result is never upper-case, an upper-case letter moves to its small letter, every other character is unchanged, and white space stays white space |
| `JsSemantics.Lower` | src/app/api/calculate-calories/route.ts:36 | `toLowerCase` keeps the length of the name |
| `JsSemantics.LowerAppend` | src/app/api/calculate-calories/route.ts:36 | lower-casing works piece by piece over concatenation |
| `JsSemantics.LowerIdempotent` | src/app/api/calculate-calories/route.ts:36 | lower-casing twice is lower-casing once |
| `JsSemantics.LowerTrimCommute` | src/app/api/calculate-calories/route.ts:36 | lower-casing then trimming equals trimming then lower-casing |
| `JsSemantics.Round` | src/app/api/calculate-calories/route.ts:44 | `Math.round`: the result is within one half of x, with a half rounded up |
| `JsSemantics.RoundUnique` | src/app/api/calculate-calories/route.ts:44 | exactly one integer meets that bound, so the rounding is determined |
| `JsSemantics.RoundMonotone` | src/app/api/calculate-calories/route.ts:44 | rounding never reverses the order of two values |
| `CalculateCalories.Normalize` | src/app/api/calculate-calories/route.ts:36 | the lower-cased, trimmed name has no white space at either end and no upper-case letter |
| `CalculateCalories.MetFor` | src/app/api/calculate-calories/route.ts:39 | `MET_VALUES[name] \|\| MET_VALUES.default` over the table of lines 4-19: the entry for a key, 5.0 for any other name; always one of the table's values, so between 2.5 and 12.3 |
| `CalculateCalories.Calories` | src/app/api/calculate-calories/route.ts:43-44 | the estimate is the integer nearest to met × 70 (`DEFAULT_WEIGHT`, line 22) × minutes / 60, with a half rounded up |
| `CalculateCalories.Handle` | src/app/api/calculate-calories/route.ts:28-53 | bad request exactly when workout or duration is falsy; internal error exactly when both are truthy and either the workout is not a string (`toLowerCase` throws) or `Number(duration)` throws; otherwise success with the normalised name, its MET, `Number(duration)` and the rounded estimate, and with `null` for both numbers when the duration is not finite |
| `CalculateCalories.Post` | src/app/api/calculate-calories/route.ts:24-60 | a body that does not parse or is `null` cannot be destructured and gives the generic failure; any other body is answered as `Handle` answers its two fields |
| `CalorieProperties.LowerOfNoUpper` | src/app/api/calculate-calories/route.ts:36 | lower-casing leaves a name without upper-case letters unchanged |
| `CalorieProperties.NormalizeTrimFirst` | src/app/api/calculate-calories/route.ts:36 | the normalised name is also the lower-cased trimmed name |
| `CalorieProperties.NormalFormFixed` | src/app/api/calculate-calories/route.ts:36 | normalisation leaves a name unchanged if and only if it is tight and has no upper-case letter |
| `CalorieProperties.NormalizeIdempotent` | src/app/api/calculate-calories/route.ts:36 | normalising a normalised name changes nothing |
| `CalorieProperties.NormalizeIgnoresCaseAndPadding` | src/app/api/calculate-calories/route.ts:36 | names that differ only in letter case and surrounding white space normalise to the same name |
| `CalorieProperties.HandleIgnoresCaseAndPadding` | src/app/api/calculate-calories/route.ts:36-53 | such names (e.g. "Running" and "  running ") get the same answer for any duration: same reported name, MET and calories |
| `CalorieProperties.WhitespaceOnlyWorkout` | src/app/api/calculate-calories/route.ts:28-43 | a name of white space only passes validation and succeeds exactly when the duration converts; it is reported as "" with the default 5.0 |
| `CalorieProperties.KeysAreTight` | src/app/api/calculate-calories/route.ts:4-19 | no table key starts or ends with white space |
| `CalorieProperties.KeysHaveNoUpper` | src/app/api/calculate-calories/route.ts:4-19 | no table key holds an upper-case letter |
| `CalorieProperties.KeysAreNormal` | src/app/api/calculate-calories/route.ts:4-19 | every table key is its own normal form |
| `CalorieProperties.KnownWorkoutGetsTableMet` | src/app/api/calculate-calories/route.ts:36-43 | a table activity in any letter case and with any surrounding white space succeeds exactly when the duration converts, and is answered with exactly its table coefficient |
| `CalorieProperties.HandleNumericDuration` | src/app/api/calculate-calories/route.ts:46-53 | a non-empty workout string with a non-zero numeric duration succeeds and echoes the normalised name, the duration and the MET beside the estimate |
| `CalorieProperties.HandleNormalName` | src/app/api/calculate-calories/route.ts:36-53 | a workout already in normal form is reported as given, with its own coefficient |
| `CalorieProperties.CaloriesNonNegative` | src/app/api/calculate-calories/route.ts:43-44 | the estimate is never negative for a duration of zero or more |
| `CalorieProperties.CaloriesMonotone` | src/app/api/calculate-calories/route.ts:43-44 | for a fixed coefficient, a longer duration never gives a smaller estimate |
| `CalorieProperties.HandleMonotoneInDuration` | src/app/api/calculate-calories/route.ts:36-53 | for a fixed workout the endpoint's estimate is non-negative and non-decreasing in a positive duration |
| `CalorieProperties.RunningHalfHour` | src/app/api/calculate-calories/route.ts:5 | "Running", in any letter case, for 30 minutes is answered with 343 calories, name "running", duration 30 and MET 9.8 |
| `CalorieProperties.UnknownActivityHour` | src/app/api/calculate-calories/route.ts:18 | a normalised name outside the table, such as "unknown activity", for 60 minutes is reported as given, with the default 5.0 and 350 calories |
| `CalorieProperties.EmptyWorkoutRejected` | src/app/api/calculate-calories/route.ts:28-33 | an empty workout name is a bad request |
| `CalorieProperties.NumericWorkoutFails` | src/app/api/calculate-calories/route.ts:54-59 | a number as the workout throws at `toLowerCase` and is answered with the generic failure, not a bad request |
| `CalorieProperties.NegativeDurationAccepted` | src/app/api/calculate-calories/route.ts:43-44 | a negative duration is accepted: "running" for -30 minutes gives -343 |
| `CalorieProperties.UnconvertibleDurationFails` | src/app/api/calculate-calories/route.ts:43 | an object duration such as `{"toString": 1}` passes validation, throws in `Number(duration)` and is answered with the generic failure |
| `CalorieProperties.CompositeDurationReadAsString` | src/app/api/calculate-calories/route.ts:43-50 | any other object or array duration always succeeds, and is answered as its non-empty string form would be |
| `CalorieProperties.UnreadableDurationAnsweredWithNull` | src/app/api/calculate-calories/route.ts:43-50 | a duration string that reads as NaN passes validation and is answered with `null` calories and `null` duration |

## Left out

- Floating point: the source multiplies IEEE-754 doubles; the model uses exact reals. A product that lands just beside a half-way point could round differently in the real code, and a duration large enough to overflow to Infinity is not modelled.
- `Number(...)` on a string, and on the string an array or object converts to, is the parameter `parse`. Whether that conversion throws is modelled; the string itself is given with the value rather than computed from its elements. The model does not fix how JavaScript reads decimal, hexadecimal, exponent or "Infinity" strings; it only fixes what the handler does with the result.
- `JsSemantics.LowerChar`: maps only the upper-case letters of Basic Latin and Latin-1; the rest of Unicode case mapping (including mappings that change length) is not modelled, and strings are sequences of Unicode scalar values, so lone UTF-16 surrogates are not represented.
- Property names inherited from the object prototype that survive lower-casing (`constructor` and `__proto__`) are not keys of the modelled table; in the source they would be found at route.ts:39 and make the estimate NaN.
- `NextResponse.json`, HTTP status codes and the `console.error` logging are represented only by the three `Response` outcomes.
- A JSON number literal too large for a double (it parses to Infinity) is not modelled; JSON numbers are finite reals.
- The page component (src/app/page.tsx) and the decorative background (src/components/Background3D.tsx) are user interface and network I/O and are not part of this model.
