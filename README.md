# Wedding site script: countdown, padding and navigation dots

A Dafny model of the computational core of the wedding website's
`script.js`:

- **Countdown** (`Countdown` module, `countdown.dfy`). `updateCountdown`
  shows a party popper and three `00` boxes once the wedding has begun.
  Before that it splits the milliseconds left into whole days, hours,
  minutes and seconds, and shows the days as plain decimal text and the
  other three padded to two digits by `pad`. The model takes
  `diff` (the wedding instant minus now, in whole milliseconds) as a
  parameter. It proves the ranges of the parts and that they recompose to
  `diff` to the second. It proves that this is the only decomposition with
  those properties. It proves that the JavaScript expressions
  `Math.floor(diff / k)` and `Math.floor((diff / k) % m)`, evaluated on
  exact reals, give exactly the integer quotient and remainder the model
  uses. Finally, it proves that reading the four boxes back as numbers
  gives the whole seconds left.
- **Decimal text** (`Decimal` module, `decimal.dfy`). `String(n)` for a
  natural number below 2^53 is modelled together with its inverse, the reading of a
  digit string. Both round trips are proved.
- **Navigation dots** (`NavDots` module, `nav_dots.dfy`). When the section
  observer reports a section in view, every dot's `active` class is
  toggled to whether the dot's `data-target` is that section's id. The
  dot loop is an in-place method on an array of flags, proved against the
  function `ActiveFlags`. The observer callback runs that loop once for
  every entry in view; the model proves that the last such entry decides
  the outcome. With distinct targets at most one dot is active, and
  exactly one when the section has a dot.

## Model

| member | source | states |
|---|---|---|
| `Decimal.DecimalString` | script.js:18 | `String(n)` of a natural is a canonical numeral (digits only, no leading zero), one character long exactly when `n < 10` |
| `Decimal.ParseDecimalString` | script.js:18 | reading back the text `String(n)` gives `n` |
| `Decimal.DecimalStringOfParse` | script.js:18 | every canonical numeral is `String` of the number it denotes, so text and number are in bijection |
| `Decimal.ParseLeadingZero` | script.js:18 | a leading `'0'` added by padding does not change the number a digit string denotes |
| `Countdown.PadStart` | script.js:18 | `padStart(width, fill)` yields length `max(len, width)`, ends with the original text, and everything before it is the fill character |
| `Countdown.Pad` | script.js:17-19 | `pad(n)` is digits only, at least two characters long, and ends with the decimal text of `n` |
| `Countdown.PadOneDigit` | script.js:17-19 | for `0 <= n <= 9`, `pad(n)` is `'0'` followed by the digit of `n` |
| `Countdown.PadManyDigits` | script.js:17-19 | for `n >= 10`, `pad(n)` is the plain decimal text of `n` |
| `Countdown.PadTwoWide` | script.js:17-19 | for `n < 100`, `pad(n)` is exactly two characters long |
| `Countdown.PadReadsBack` | script.js:17-19 | `pad(n)` still denotes `n` |
| `Countdown.Decompose` | script.js:25-36 | the celebration branch is taken exactly when `diff <= 0`; otherwise hours are below 24 and minutes and seconds below 60 |
| `Countdown.Recompose` | script.js:33-36 | for `diff > 0`, `days*86400000 + hours*3600000 + minutes*60000 + seconds*1000 <= diff <` that sum `+ 1000`: no whole second lost or counted twice |
| `Countdown.DecomposeUnique` | script.js:33-36 | any days/hours/minutes/seconds with in-range parts that recompose to `diff` to the second are the ones the countdown computes |
| `Countdown.WholeSeconds` | script.js:33-36 | the parts counted in seconds equal `diff` divided by 1000, rounded down |
| `Countdown.FloorOfQuotient` | script.js:33 | `Math.floor(a / k)` on exact reals is integer division for positive `k` |
| `Countdown.FloorOfRemainder` | script.js:34-36 | `Math.floor((a / k) % m)` with JavaScript's truncating `%`, on exact reals, is `(a / k) % m` in integers for positive operands |
| `Countdown.JsExpressionsAgree` | script.js:33-36 | for `diff > 0` the four JavaScript expressions give exactly the fields of `Decompose(diff)` |
| `Countdown.UpdateCountdown` | script.js:21-43 | for `diff <= 0` the boxes show the party popper and `00`, `00`, `00`; otherwise the days box is a canonical numeral and the other three are two digits each, and each box read as a number is its part of `Decompose(diff)` (days, hours, minutes, seconds) |
| `Countdown.DisplayReadsBack` | script.js:33-42 | reading the four boxes as numbers, `days*86400 + hours*3600 + minutes*60 + seconds` is the number of whole seconds left |
| `NavDots.ActiveFlags` | script.js:107-111 | the toggle rule yields one flag per dot, and dot `i` is active exactly when `targets[i]` equals the section id |
| `NavDots.AtMostOneActive` | script.js:107-111 | with pairwise distinct targets, two active dots are the same dot |
| `NavDots.ActiveCount` | script.js:107-111 | with pairwise distinct targets, exactly one dot is active if the section has a dot, none otherwise |
| `NavDots.ToggleActive` | script.js:107-111 | the dot loop leaves the flag array equal to `ActiveFlags(targets, sectionId)` |
| `NavDots.LastIntersecting` | script.js:105-106 | picks the id of the last entry that is in view, or none exactly when no entry is in view |
| `NavDots.OnSectionEntries` | script.js:104-114 | after a report, the flags are those of the last section in view, or unchanged if none is in view |

## Left out

- DOM access (`getElementById`, `querySelectorAll`, `textContent`, `style`, `classList`, `getAttribute`) is host I/O. The boxes are the `Display` value, and the dots are an array of flags beside the sequence of their `data-target` values.
- `animateNumber` (script.js:45-57) is left out because it is an asynchronous animation over `requestAnimationFrame`. `UpdateCountdown` gives the text each box ends up showing, and the transform and opacity changes are not modelled.
- `new Date()` and the constant `WEDDING_DATE` (script.js:10, 22-23) are left out because they read the wall clock and parse a date string. `diff` is a parameter, in whole milliseconds, since `Date` subtraction yields an integral number.
- `setInterval` scheduling (script.js:61-62) and the CSS transition set-up (script.js:124-128) are left out because they are timers and styling.
- The scroll-reveal observer, its fallback (script.js:64-84) and the click handlers that call `scrollIntoView` (script.js:90-99) are left out because they are browser callbacks with no computation.
- The observer thresholds and root margins are left out because they are browser layout decisions. The model starts from the list of entries the observer reports (script.js:104-114).
- IEEE-754 rounding is not modelled: the JavaScript expressions are evaluated on exact reals (`FloorOfQuotient`, `FloorOfRemainder`).
- The party popper is one Unicode code point (U+1F389) here, whereas a JavaScript string holds it as two UTF-16 code units.
- Decimal.DecimalString: exact digits for every natural, matching JavaScript's `String(n)` only below 2^53. Above that JavaScript prints rounded digits, and from 1e21 on it uses exponent form. The countdown never reaches such numbers: days stay far below 2^53 and the other parts below 60.
- Every dot is taken to carry a `data-target`. A dot without one reads `null` and never matches (script.js:110), and a sequence of strings cannot express that case.
- Countdown.PadStart: lengths count code points, whereas JavaScript's `padStart` counts UTF-16 code units. The two agree on text without characters beyond U+FFFF, which covers the digit strings `pad` passes; on an astral character such as U+1F389 they differ.
- Pad: modelled for natural numbers only. `updateCountdown` only passes it hours, minutes and seconds, which are naturals below 60.
