/** The wedding countdown: two-digit padding, the split of the remaining
    milliseconds into days, hours, minutes and seconds, and the four texts
    the countdown shows. The wall clock is not read here: `diff` (the
    wedding instant minus now, in whole milliseconds) is a parameter. */
module Countdown {
  import opened Decimal

  const MsPerSecond: nat := 1000
  const MsPerMinute: nat := 60 * MsPerSecond
  const MsPerHour: nat := 60 * MsPerMinute
  const MsPerDay: nat := 24 * MsPerHour

  // ---------------------------------------------------------------------
  // Padding
  // ---------------------------------------------------------------------

  /** `s.padStart(width, fill)` with a one-character fill string: the text is
      left alone when it is already `width` long, otherwise it is prefixed
      with as many copies of `fill` as make it exactly `width` long. Lengths
      count code points, which agrees with JavaScript's UTF-16 lengths on
      text without astral characters, such as the digit strings `pad` pads. */
  function PadStart(s: string, width: nat, fill: char): (r: string)
    ensures |r| == if |s| >= width then |s| else width
    ensures r[|r| - |s|..] == s
    ensures forall i :: 0 <= i < |r| - |s| ==> r[i] == fill
  {
    if |s| >= width then s else seq(width - |s|, _ => fill) + s
  }

  /** `pad(n)`: `String(n).padStart(2, '0')` for a natural number. */
  function Pad(n: nat): (r: string)
    ensures AllDigits(r)
    ensures |r| >= 2 && |r| >= |DecimalString(n)|
    ensures r[|r| - |DecimalString(n)|..] == DecimalString(n)
  {
    PadStart(DecimalString(n), 2, '0')
  }

  /** A one-digit number is shown as a zero followed by its digit. */
  lemma PadOneDigit(n: nat)
    requires n <= 9
    ensures Pad(n) == ['0', DigitChar(n)]
  {
  }

  /** From ten on, the padding is exactly the plain decimal text. */
  lemma PadManyDigits(n: nat)
    requires n >= 10
    ensures Pad(n) == DecimalString(n)
  {
  }

  /** Below one hundred the padded text is exactly two characters long. */
  lemma PadTwoWide(n: nat)
    requires n < 100
    ensures |Pad(n)| == 2
  {
  }

  /** The padded text still denotes `n`: the leading zero adds nothing. */
  lemma PadReadsBack(n: nat)
    ensures ParseDecimal(Pad(n)) == n
  {
    ParseDecimalString(n);
    if n <= 9 {
      PadOneDigit(n);
      ParseLeadingZero(DecimalString(n));
      assert Pad(n) == ['0'] + DecimalString(n);
    } else {
      PadManyDigits(n);
    }
  }

  // ---------------------------------------------------------------------
  // Decomposition
  // ---------------------------------------------------------------------

  /** What the countdown has to show: the celebration once the wedding has
      begun, otherwise the whole days, hours, minutes and seconds left. */
  datatype Parts =
    | Celebrating
    | Remaining(days: nat, hours: nat, minutes: nat, seconds: nat)

  /** Milliseconds a `Remaining` value stands for. */
  function Millis(days: nat, hours: nat, minutes: nat, seconds: nat): nat {
    days * MsPerDay + hours * MsPerHour + minutes * MsPerMinute + seconds * MsPerSecond
  }

  /** The branch and the four divisions of `updateCountdown`. */
  function Decompose(diff: int): (c: Parts)
    ensures c.Celebrating? <==> diff <= 0
    ensures c.Remaining? ==> c.hours < 24 && c.minutes < 60 && c.seconds < 60
  {
    if diff <= 0 then Celebrating
    else Remaining(diff / MsPerDay, (diff / MsPerHour) % 24,
                   (diff / MsPerMinute) % 60, (diff / MsPerSecond) % 60)
  }

  /** `a / k` and `a % k` are the unique quotient and remainder. */
  lemma DivModUnique(a: int, k: int, q: int, r: int)
    requires k > 0 && 0 <= r < k && a == k * q + r
    ensures a / k == q && a % k == r
  {
    var q' := a / k;
    assert k * (q - q') == a % k - r;
    if q > q' {
      MulAtLeast(k, q - q');
    } else if q < q' {
      MulAtLeast(k, q' - q);
    }
  }

  lemma {:induction false} MulAtLeast(k: nat, n: int)
    requires n >= 1
    ensures k * n >= k
    decreases n
  {
    if n > 1 {
      MulAtLeast(k, n - 1);
      assert k * n == k * (n - 1) + k;
    }
  }

  /** No whole second is lost or counted twice: the parts add up to `diff`
      less its sub-second remainder. */
  lemma Recompose(diff: int)
    requires diff > 0
    ensures Decompose(diff).Remaining?
    ensures var c := Decompose(diff);
      Millis(c.days, c.hours, c.minutes, c.seconds) <= diff
      < Millis(c.days, c.hours, c.minutes, c.seconds) + MsPerSecond
  {
    var ms, t := diff % 1000, diff / 1000;
    var s, t1 := t % 60, t / 60;
    var mi, t2 := t1 % 60, t1 / 60;
    var h, d := t2 % 24, t2 / 24;
    assert diff == 86400000 * d + (3600000 * h + 60000 * mi + 1000 * s + ms);
    DivModUnique(diff, 86400000, d, 3600000 * h + 60000 * mi + 1000 * s + ms);
    DivModUnique(diff, 3600000, t2, 60000 * mi + 1000 * s + ms);
    DivModUnique(diff, 60000, t1, 1000 * s + ms);
    DivModUnique(t2, 24, d, h);
    DivModUnique(t1, 60, t2, mi);
    DivModUnique(t, 60, t1, s);
  }

  /** The decomposition is the only one with in-range hours, minutes and
      seconds that recomposes to `diff` to the second. */
  lemma DecomposeUnique(diff: int, days: nat, hours: nat, minutes: nat, seconds: nat)
    requires hours < 24 && minutes < 60 && seconds < 60
    requires Millis(days, hours, minutes, seconds) <= diff
    requires diff < Millis(days, hours, minutes, seconds) + MsPerSecond
    ensures diff > 0 ==> Decompose(diff) == Remaining(days, hours, minutes, seconds)
  {
    if diff > 0 {
      var ms := diff - Millis(days, hours, minutes, seconds);
      DivModUnique(diff, 86400000, days, 3600000 * hours + 60000 * minutes + 1000 * seconds + ms);
      DivModUnique(diff, 3600000, 24 * days + hours, 60000 * minutes + 1000 * seconds + ms);
      DivModUnique(diff, 60000, 1440 * days + 60 * hours + minutes, 1000 * seconds + ms);
      DivModUnique(diff, 1000, 86400 * days + 3600 * hours + 60 * minutes + seconds, ms);
      DivModUnique(24 * days + hours, 24, days, hours);
      DivModUnique(1440 * days + 60 * hours + minutes, 60, 24 * days + hours, minutes);
      DivModUnique(86400 * days + 3600 * hours + 60 * minutes + seconds, 60,
                   1440 * days + 60 * hours + minutes, seconds);
    }
  }

  // ---------------------------------------------------------------------
  // The JavaScript expressions, over exact reals
  // ---------------------------------------------------------------------

  /** Rounding toward zero, as the quotient inside JavaScript's `%` does. */
  function Trunc(x: real): (t: int)
    ensures x >= 0.0 ==> 0.0 <= t as real <= x < t as real + 1.0
    ensures x < 0.0 ==> t as real - 1.0 < x <= t as real <= 0.0
  {
    if x >= 0.0 then x.Floor else -((-x).Floor)
  }

  /** JavaScript's `x % y` on numbers: the remainder of the truncated quotient,
      with the sign of `x`. */
  function JsRemainder(x: real, y: real): real
    requires y != 0.0
  {
    x - y * (Trunc(x / y) as real)
  }

  /** A remainder divided by its divisor is a fraction in [0, 1). */
  lemma FractionBelowOne(a: real, m: real)
    requires 0.0 <= a < m
    ensures 0.0 <= a / m < 1.0
  {
  }

  /** `Math.floor(a / k)` is integer division when `k` is positive. */
  lemma FloorOfQuotient(a: int, k: int)
    requires k > 0
    ensures (a as real / k as real).Floor == a / k
  {
    var q, r := a / k, a % k;
    var x := a as real / k as real;
    assert x == q as real + r as real / k as real;
    FractionBelowOne(r as real, k as real);
  }

  /** `Math.floor((a / k) % m)` is `(a / k) % m` in integer arithmetic when
      `a`, `k` and `m` are positive. */
  lemma FloorOfRemainder(a: int, k: int, m: int)
    requires a > 0 && k > 0 && m > 0
    ensures JsRemainder(a as real / k as real, m as real).Floor == (a / k) % m
  {
    var q, f := a / k, (a % k) as real / k as real;
    var x := a as real / k as real;
    assert x == q as real + f;
    FractionBelowOne((a % k) as real, k as real);
    var hi, lo := q / m, q % m;
    assert q == m * hi + lo;
    assert x / m as real == hi as real + (lo as real + f) / m as real;
    FractionBelowOne(lo as real + f, m as real);
    assert Trunc(x / m as real) == hi;
    assert JsRemainder(x, m as real) == lo as real + f;
  }

  /** The four JavaScript expressions of `updateCountdown`, evaluated on exact
      reals, give the fields of `Decompose`. */
  lemma JsExpressionsAgree(diff: int)
    requires diff > 0
    ensures Decompose(diff) == Remaining(
      (diff as real / MsPerDay as real).Floor,
      JsRemainder(diff as real / MsPerHour as real, 24.0).Floor,
      JsRemainder(diff as real / MsPerMinute as real, 60.0).Floor,
      JsRemainder(diff as real / MsPerSecond as real, 60.0).Floor)
  {
    FloorOfQuotient(diff, MsPerDay);
    FloorOfRemainder(diff, MsPerHour, 24);
    FloorOfRemainder(diff, MsPerMinute, 60);
    FloorOfRemainder(diff, MsPerSecond, 60);
  }

  // ---------------------------------------------------------------------
  // Display
  // ---------------------------------------------------------------------

  /** The texts of the days, hours, minutes and seconds boxes. */
  datatype Display = Display(days: string, hours: string, minutes: string, seconds: string)

  /** Shown once the wedding has begun: a party popper and three "00". */
  const Celebration: Display := Display("\U{1F389}", "00", "00", "00")

  /** What one tick of `updateCountdown` leaves in the four boxes. */
  function UpdateCountdown(diff: int): (d: Display)
    ensures diff <= 0 ==> d == Celebration
    ensures diff > 0 ==>
      Canonical(d.days) && AllDigits(d.hours) && AllDigits(d.minutes) && AllDigits(d.seconds)
    ensures diff > 0 ==> |d.hours| == 2 && |d.minutes| == 2 && |d.seconds| == 2
    ensures diff > 0 ==> var c := Decompose(diff);
      ParseDecimal(d.days) == c.days && ParseDecimal(d.hours) == c.hours
      && ParseDecimal(d.minutes) == c.minutes && ParseDecimal(d.seconds) == c.seconds
  {
    match Decompose(diff)
    case Celebrating => Celebration
    case Remaining(days, hours, minutes, seconds) =>
      PadTwoWide(hours);
      PadTwoWide(minutes);
      PadTwoWide(seconds);
      ParseDecimalString(days);
      PadReadsBack(hours);
      PadReadsBack(minutes);
      PadReadsBack(seconds);
      Display(DecimalString(days), Pad(hours), Pad(minutes), Pad(seconds))
  }

  /** The four parts, counted in seconds, are the whole seconds left. */
  lemma WholeSeconds(diff: int)
    requires diff > 0
    ensures var c := Decompose(diff);
      c.Remaining? &&
      c.days * 86400 + c.hours * 3600 + c.minutes * 60 + c.seconds == diff / MsPerSecond
  {
    var c := Decompose(diff);
    Recompose(diff);
    var whole := c.days * 86400 + c.hours * 3600 + c.minutes * 60 + c.seconds;
    assert Millis(c.days, c.hours, c.minutes, c.seconds) == 1000 * whole;
    DivModUnique(diff, 1000, whole, diff - 1000 * whole);
  }

  /** Reading the four boxes as numbers gives back the whole seconds left. */
  lemma DisplayReadsBack(diff: int)
    requires diff > 0
    ensures var d := UpdateCountdown(diff);
      ParseDecimal(d.days) * 86400 + ParseDecimal(d.hours) * 3600
      + ParseDecimal(d.minutes) * 60 + ParseDecimal(d.seconds) == diff / MsPerSecond
  {
    WholeSeconds(diff);
  }
}
