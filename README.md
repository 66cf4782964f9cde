# SlotNumber: a verified model of the statistic counter

`SlotNumber` is the React component of the car-accident-counsel site that
shows a statistic of the About page, such as "$67M+", "5,000+", "95%" or
"25+", as a number that counts up from 0. It does two things:

- `parseValue` turns the statistic text into a target number, a prefix, a
  suffix and a format (millions, number or percent). It tries five rules
  in a fixed order: millions (`$` and `M` with a `[\d.]+M` match), comma
  count, percentage, plus count, and bare number.
- The first time the element becomes visible, a one-shot latch is set and
  an interval timer starts. The timer fires 60 times. Each firing adds a
  sixtieth of the target to a running total and shows it in the
  statistic's format. The 60th firing snaps the total to the target and
  clears the timer.

The project has five modules:

- `JsStrings` (`js_strings.dfy`) models the two forms of
  `String.prototype.replace` the parser uses. The one-character string
  pattern removes only the first occurrence. The global regular expression
  removes every occurrence.
- `JsNumbers` (`js_numbers.dfy`) models the JavaScript number behaviour the
  counter touches:
  - NaN, as a `Num` datatype that arithmetic propagates;
  - `parseFloat`;
  - `String(Math.floor(x))`;
  - `toFixed(1)`, as section 21.1.3.3 of ECMA-262 defines it;
  - `toLocaleString` of a whole number in the en-US locale.
- `SlotParse` (`slot_parse.dfy`) models `parseValue`, with the millions
  regular expression `/\$?([\d.]+)M\+?/` matched leftmost, as JavaScript
  does.
- `CountUp` (`count_up.dfy`) models the animation:
  - the running total as a function of the step number (`Partial`,
    `ValueAt`);
  - the per-format rendering (`Render`);
  - a `Counter` class holding the component's mutable state (the
    `hasAnimated` latch, `isAnimating`, the timer's `step` and `current`,
    and `displayValue`), with one method for the visibility callback and
    one for a timer firing.
- `Statistics` (`statistics.dfy`) covers each statistic shape: what
  `parseValue` reads it as, and the text it freezes at when the animation
  ends. It then instantiates those results for the four statistics of
  `src/AboutUs.jsx`, for "$5.0M+", and for "$5,000+".

Numbers are exact reals. Floating-point rounding is not modelled, so the
drift that the final snap corrects does not arise: `CountUp.SnapIsExact`
proves that 60 exact additions already reach the target.

Three details of `parseValue` are easy to misread:

- The millions rule reads the capture group of the regular expression,
  which is the first run of digits and points that an `M` follows. When
  the text has a `$` and an `M` but the pattern does not match, the later
  rules are tried.
- The comma rule removes every `,` and then the first `+`, wherever that
  `+` is, and reads the rest with `parseFloat`, so a fraction is kept.
- Only the bare-number rule turns NaN into 0 (`|| 0`). So "$5,000+"
  becomes NaN and is shown as "NaN+" (`Statistics.DollarCountIsNaN`).

## Model

| member | source | states |
|---|---|---|
| JsStrings.IndexOf | src/SlotNumber.jsx:30 | the position `replace('+', '')` removes: -1 when the character is absent, otherwise an index holding it with no earlier occurrence |
| JsStrings.ReplaceFirst | src/SlotNumber.jsx:20-30 | `replace(c, '')` with a one-character pattern; what it does is stated by `ReplaceFirstRemovesFirst` and `ReplaceFirstAfter` |
| JsStrings.ReplaceFirstRemovesFirst | src/SlotNumber.jsx:20-30 | a text without `c` is left as it is; otherwise exactly one `c` is cut out, with no `c` before it |
| JsStrings.ReplaceFirstAfter | src/SlotNumber.jsx:25 | removing the first `c` from `a + b`, where `a` has no `c`, keeps `a` and removes the first `c` of `b` |
| JsStrings.RemoveAll | src/SlotNumber.jsx:20 | `replace(/,/g, '')` leaves no `,`, keeps every other character that occurs in the input and no other, and never lengthens it; multiplicity and order are proved by the lemmas below |
| JsStrings.RemoveAllMultiset | src/SlotNumber.jsx:20 | every `,` goes and every other character stays exactly as often as it occurred |
| JsStrings.RemoveAllSingle | src/SlotNumber.jsx:20 | a single character is dropped exactly when it is `,`; with `RemoveAllConcat` this fixes the order of what is kept |
| JsStrings.RemoveAllConcat | src/SlotNumber.jsx:20 | removing every `,` distributes over concatenation |
| JsNumbers.LeadingDigits | src/SlotNumber.jsx:34 | the digit prefix `parseFloat` reads is a prefix of the text, all digits, and ends where a non-digit follows |
| JsNumbers.FracValue | src/SlotNumber.jsx:34 | the digits after the point denote a value in [0, 1) |
| JsNumbers.Add | src/SlotNumber.jsx:55 | `current += increment`; its NaN behaviour is stated by `NaNPropagates` |
| JsNumbers.Mul | src/SlotNumber.jsx:15 | `parseFloat(match[1]) * 1000000`; its NaN behaviour is stated by `NaNPropagates` |
| JsNumbers.Div | src/SlotNumber.jsx:49 | `targetNumber / steps` and `current / 1000000`; its NaN behaviour is stated by `NaNPropagates` |
| JsNumbers.NaNPropagates | src/SlotNumber.jsx:49-55 | a sum, product or quotient is NaN exactly when an operand is NaN, and otherwise the exact real result |
| JsNumbers.ParseFloat | src/SlotNumber.jsx:34 | `parseFloat` gives a number exactly when the text starts with a decimal literal after an optional sign; that number is non-negative unless the text starts with `-` |
| JsNumbers.DigitsValueOfNatToString | src/SlotNumber.jsx:71 | reading the decimal digits of `n` gives back `n` |
| JsNumbers.ParseFloatNat | src/SlotNumber.jsx:34 | `parseFloat(String(n))` is `n` for every whole number |
| JsNumbers.IntToString | src/SlotNumber.jsx:67 | `String(n)` of an integer, sign included; `ParseFloatInt` proves it reads back as the integer |
| JsNumbers.ParseFloatInt | src/SlotNumber.jsx:67 | `parseFloat(String(Math.floor(x)))` gives back the integer, negative ones included |
| JsNumbers.ParseFloatNegated | src/SlotNumber.jsx:34 | a leading `-` negates the number that follows and keeps NaN |
| JsNumbers.ParseFloatTenths | src/SlotNumber.jsx:65 | whole digits, a point and one digit read back as whole + digit / 10 |
| JsNumbers.RoundToTenths | src/SlotNumber.jsx:65 | the tenths count `toFixed(1)` chooses lies within half a tenth of the value, the larger one on a tie |
| JsNumbers.ToFixed1 | src/SlotNumber.jsx:65 | `x.toFixed(1)`; `ToFixed1Accurate`, `ToFixed1ReadsBack` and `ToFixed1Whole` state what it prints |
| JsNumbers.TenthsReadsBack | src/SlotNumber.jsx:65 | `n` tenths in writing read back as `n / 10` |
| JsNumbers.ToFixed1ReadsBack | src/SlotNumber.jsx:65 | what `toFixed(1)` prints reads back as the signed tenths count it rounded to |
| JsNumbers.ToFixed1Accurate | src/SlotNumber.jsx:65 | what `toFixed(1)` prints reads back as a number within 0.05 of the value |
| JsNumbers.ToFixed1Whole | src/SlotNumber.jsx:65 | a whole number prints with `toFixed(1)` as its digits followed by ".0" |
| JsNumbers.NatToString | src/SlotNumber.jsx:71 | `String(n)` is a non-empty digit string with no leading zero |
| JsNumbers.GroupThousands | src/SlotNumber.jsx:69 | `toLocaleString()` starts with a digit, has only digits and commas, and has a comma exactly when the number is at least 1000 |
| JsNumbers.NatToStringThousands | src/SlotNumber.jsx:69 | the digits of `1000 * a + b` are those of `a` followed by `b` padded to three digits |
| JsNumbers.GroupThousandsDigits | src/SlotNumber.jsx:69 | removing the separators from `toLocaleString()` gives `String(n)` back |
| SlotParse.RunLength | src/SlotNumber.jsx:13 | the greedy `[\d.]+` run from a position stays in bounds, holds only digits and points, and stops before any other character |
| SlotParse.RunLengthIs | src/SlotNumber.jsx:13 | a run of digits and points that ends at the end of the text or before another character is exactly the greedy run |
| SlotParse.MatchMillion | src/SlotNumber.jsx:13 | the regular expression matches exactly when some position starts a `[\d.]+M` group; capture 1 is the run at the leftmost such position |
| SlotParse.ParseValue | src/SlotNumber.jsx:10-36 | which rule applies for which markers in the text (both directions), and the prefix and suffix each rule gives; the bare-number rule always gives a finite number |
| SlotParse.ParseValueMillions | src/SlotNumber.jsx:12-16 | a millions result is the first group read by `parseFloat`, times 1,000,000 |
| SlotParse.ParseValueNumber | src/SlotNumber.jsx:18-35 | the number each other rule gives is its stripped text read by `parseFloat`; only the bare-number rule turns NaN into 0 |
| SlotParse.MillionRule | src/SlotNumber.jsx:12-16 | with a `$`, an `M` and a match, the result is the capture times 1,000,000, with prefix "$" and suffix "M+" |
| SlotParse.CommaRule | src/SlotNumber.jsx:19-22 | when the millions rule does not apply (no `$`, no `M`, or no match, the fall-through included), a `,` gives `parseFloat` of the text without its commas and its first `+`, with suffix "+" |
| SlotParse.PercentRule | src/SlotNumber.jsx:24-27 | with no millions match and no `,`, a `%` gives `parseFloat` of the text without its first `%`, with suffix "%" |
| SlotParse.PlusRule | src/SlotNumber.jsx:29-32 | with no millions match, no `,` and no `%`, a `+` gives `parseFloat` of the text without its first `+`, with suffix "+" |
| SlotParse.PlainRule | src/SlotNumber.jsx:34-35 | with no millions match and no `,`, `%` or `+`, the text read by `parseFloat`, or 0 for NaN, with no prefix or suffix |
| SlotParse.OrZero | src/SlotNumber.jsx:34 | the fallback to 0 after `parseFloat(val)`; `OrZeroFinite` states what it gives |
| SlotParse.OrZeroFinite | src/SlotNumber.jsx:34 | the fallback never gives NaN: NaN becomes 0 and a finite number is kept |
| CountUp.PartialClosedForm | src/SlotNumber.jsx:48-55 | before the snap, the running total after `k` firings is `k * (target / 60)` |
| CountUp.PartialNaN | src/SlotNumber.jsx:49-55 | with a NaN target, the running total is NaN after every firing |
| CountUp.SnapIsExact | src/SlotNumber.jsx:57-58 | in exact arithmetic, 60 increments reach the target, so the snap changes nothing |
| CountUp.Partial | src/SlotNumber.jsx:49-55 | the running total after `k` firings before the snap; stated by `PartialClosedForm`, `PartialFinite`, `PartialMonotone` and `PartialNaN` |
| CountUp.ValueAt | src/SlotNumber.jsx:53-58 | `current` after `k` firings, the 60th snapping to the target; stated by `SnapIsExact`, `ValueAtBounds` and `ValueAtMonotone` |
| CountUp.PartialFinite | src/SlotNumber.jsx:49-55 | a finite target gives a finite running total after every firing |
| CountUp.PartialMonotone | src/SlotNumber.jsx:49-55 | each firing adds the same sixtieth, so the running total rises for a non-negative target and falls for a non-positive one |
| CountUp.ValueAtBounds | src/SlotNumber.jsx:53-58 | every value the counter takes lies between 0 and the target, for either sign of the target |
| CountUp.ValueAtMonotone | src/SlotNumber.jsx:53-58 | the values rise towards a non-negative target and fall towards a non-positive one |
| CountUp.FloorText | src/SlotNumber.jsx:67-71 | `String(Math.floor(current))`, "NaN" for NaN; stated by `FloorTextReadsBack` |
| CountUp.FloorTextReadsBack | src/SlotNumber.jsx:67-71 | the printed whole part reads back as the floor of the value, and "NaN" reads back as NaN |
| CountUp.FixedText | src/SlotNumber.jsx:65 | `(current / 1000000).toFixed(1)`, "NaN" for NaN; stated by `FixedTextAccurate` |
| CountUp.FixedTextAccurate | src/SlotNumber.jsx:65 | the printed text reads back within 0.05 of the value, and as NaN for NaN |
| CountUp.Render | src/SlotNumber.jsx:63-72 | the text a firing shows in each format; stated by `RenderAffixes`, `History`, `Counter.Tick` and the `Statistics.*Shown` lemmas |
| CountUp.RenderAffixes | src/SlotNumber.jsx:63-72 | every shown text ends with the suffix, and every format but the percentage starts with the prefix |
| CountUp.FinalDisplay | src/SlotNumber.jsx:57-74 | the text shown by the 60th firing; `History` proves the 60th entry is this text |
| CountUp.History | src/SlotNumber.jsx:53-74 | firing `k` shows the value after `k` steps rendered in the statistic's format; the 60th shows the final text |
| CountUp.Counter.constructor | src/SlotNumber.jsx:3-38 | mounting parses `value`, shows "0", and leaves the latch and the animation off |
| CountUp.Counter.HandleEntry | src/SlotNumber.jsx:43-52 | an intersecting entry sets the latch and starts the animation from step 0 unless the latch is already set; otherwise nothing changes |
| CountUp.Counter.OnVisible | src/SlotNumber.jsx:42-47 | after a callback the latch is set exactly when it was set before or some entry intersects; an animation starts only if the latch was clear; otherwise nothing changes |
| CountUp.Counter.Tick | src/SlotNumber.jsx:53-74 | a firing advances the step by one, adds `target / 60` (or snaps to the target on step 60, when the animation stops) and shows the value rendered in the statistic's format |
| CountUp.Counter.RunInterval | src/SlotNumber.jsx:53-75 | a started animation fires exactly the remaining steps of the 60, ends on the target showing the final text, and has shown the whole history |
| Statistics.CommaCountText | src/SlotNumber.jsx:19-20 | a thousands-separated count with a `+` has a `,` and no `$`, and stripping it leaves the plain digits |
| Statistics.MillionCapture | src/SlotNumber.jsx:13 | the capture of "$" + body + "M+" is the body, when the body is a non-empty run of digits and points |
| Statistics.MillionsOf | src/SlotNumber.jsx:12-16 | "$" + body + "M+" reads as the body's value times 1,000,000 |
| Statistics.CommaCountOf | src/SlotNumber.jsx:19-21 | a text with a `,` and no `$` reads as its stripped text's value, with suffix "+" |
| Statistics.PercentOf | src/SlotNumber.jsx:24-26 | digits followed by `%` read as a percentage of their value |
| Statistics.PlusCountOf | src/SlotNumber.jsx:29-31 | digits followed by `+` read as a count of their value |
| Statistics.PlainNumberOf | src/SlotNumber.jsx:34-35 | bare digits read as their value |
| Statistics.CommaCountShown | src/SlotNumber.jsx:68-69 | a count of at least 1000 with suffix "+" ends shown with thousands separators and "+" |
| Statistics.PercentShown | src/SlotNumber.jsx:67 | a whole percentage ends shown as its digits and "%" |
| Statistics.PlusCountShown | src/SlotNumber.jsx:68-71 | a whole count with suffix "+" ends shown plainly below 1000 and with separators from 1000 on |
| Statistics.PlainNumberShown | src/SlotNumber.jsx:68-71 | a bare whole number ends shown plainly below 1000 and with separators from 1000 on |
| Statistics.WholeMillionsShown | src/SlotNumber.jsx:64-65 | `n` million ends shown as "$" + n + ".0M+" |
| Statistics.TenthsMillionsShown | src/SlotNumber.jsx:64-65 | `n` tenths of a million end shown as "$" + the tenths with one decimal + "M+" |
| Statistics.CommaCountRoundTrip | src/SlotNumber.jsx:19-22 | for every count of at least 1000, its separated form with "+" reads as the count and ends shown exactly as written |
| Statistics.PercentRoundTrip | src/SlotNumber.jsx:24-27 | for every whole percentage, "n%" reads as `n` and ends shown exactly as written |
| Statistics.PlusCountRoundTrip | src/SlotNumber.jsx:29-32 | for every whole count, "n+" reads as `n` and ends shown as written below 1000, separated from 1000 on |
| Statistics.PlainNumberRoundTrip | src/SlotNumber.jsx:34-35 | every whole number's digits read as the number, which ends shown as written below 1000, separated from 1000 on |
| Statistics.WholeMillionsRoundTrip | src/SlotNumber.jsx:12-16 | "$" + body + "M+", where the body reads as whole `v`, is `v` million and ends shown as "$v.0M+" |
| Statistics.TenthsMillionsRoundTrip | src/SlotNumber.jsx:12-16 | "$" + body + "M+", where the body reads as `n` tenths, is that many millions and ends shown with those tenths |
| Statistics.RecoveredStatistic | src/AboutUs.jsx:134 | "$67M+" is 67,000,000 in the millions format and ends shown as "$67.0M+" |
| Statistics.CasesStatistic | src/AboutUs.jsx:138 | "5,000+" is 5000 and ends shown as "5,000+" |
| Statistics.SuccessRateStatistic | src/AboutUs.jsx:142 | "95%" is 95 in the percent format and ends shown as "95%" |
| Statistics.YearsStatistic | src/AboutUs.jsx:146 | "25+" is 25 and ends shown as "25+" |
| Statistics.DollarCountParse | src/SlotNumber.jsx:12-22 | "$5,000+" has a `$` but no `M`, so the comma rule reads it with its `$` kept |
| Statistics.DollarCountIsNaN | src/SlotNumber.jsx:12-22 | "$5,000+" reads as NaN and ends shown as "NaN+" |
| Statistics.FiveMillionStatistic | src/SlotNumber.jsx:13-15 | "$5.0M+" is 5,000,000 and ends shown as "$5.0M+" |
| Statistics.MillionsCounterScenario | src/SlotNumber.jsx:40-75 | a counter for "$5.0M+" shows "0", starts on the first intersecting entry, fires exactly 60 times, ends showing "$5.0M+", and ignores later visibility |

## Left out

- The IntersectionObserver itself is left out: the 0.3 threshold, `closest('.about-stat-item')`, `observe` and `disconnect`. A callback is modelled as the sequence of its entries' `isIntersecting` flags.
- Timing is left out: `setInterval`, the `duration` prop and the interval of `duration / 60` ms. The timer is modelled by its firings, one `Tick` call each, and `Tick` requires a running animation, because a cleared timer does not fire.
- The timer is never cleared when the component unmounts. The model has no unmount.
- React is left out: hooks, re-rendering, the effect re-running when its dependencies change, the `rolling` class and the JSX markup. State updates take effect immediately.
- JsNumbers.ParseFloat: models only an optional sign, digits, and an optional point with digits. It leaves out leading whitespace, exponents, "Infinity", and the rounding of long digit strings to a double. None of these occurs in a statistic of the page.
- JsNumbers.IntToString: prints every integer as plain digits with its sign, while `String(Math.floor(x))` prints exponent forms such as "1e+21" and "-1e+21" from 1e21 up in magnitude. That form is reachable at src/SlotNumber.jsx:67 for a percentage and at src/SlotNumber.jsx:71 for a negative count or bare number. `CountUp.FloorText` inherits this.
- JsNumbers.ToFixed1: does not model the exponential form for magnitudes of 1e21 and above, or binary rounding before the decimal choice. It is exact on reals.
- JsNumbers.GroupThousands: models only the en-US locale; other locales use other separators.
- CountUp.Partial: the total uses exact real addition, so floating-point drift does not arise.
- The About page markup outside the four `SlotNumber` uses and `src/App.jsx` are not part of this model.
