/**
 * The speed estimate of one subsegment and its colour band: the duration
 * string `"<seconds>s"` reported by the routing service is parsed, the speed
 * is distance over time in km/h, and a fixed threshold ladder maps the speed
 * to a display colour. Python's NaN ("no speed") is `None` here.
 */
module Speed {
  import opened Wrappers

  predicate IsDigit(c: char)
  {
    '0' <= c <= '9'
  }

  predicate AllDigits(s: string)
  {
    forall i :: 0 <= i < |s| ==> IsDigit(s[i])
  }

  function DigitValue(c: char): (d: nat)
    requires IsDigit(c)
    ensures d <= 9
  {
    (c as int) - ('0' as int)
  }

  /** The value of a string of decimal digits, most significant first. */
  function DigitsValue(s: string): nat
    requires AllDigits(s)
  {
    if s == [] then 0 else DigitsValue(s[..|s| - 1]) * 10 + DigitValue(s[|s| - 1])
  }

  function Pow10(n: nat): (p: nat)
    ensures p >= 1
  {
    if n == 0 then 1 else 10 * Pow10(n - 1)
  }

  /** Fraction digits after a decimal point: their value over the matching power of ten. */
  function Fraction(digits: string): (f: real)
    requires AllDigits(digits)
    ensures 0.0 <= f
  {
    DigitsValue(digits) as real / Pow10(|digits|) as real
  }

  /** The position of the first `c` in `s`, if any. */
  function IndexOf(s: string, c: char): (r: Option<nat>)
    ensures r.Some? ==> r.value < |s| && s[r.value] == c && forall i :: 0 <= i < r.value ==> s[i] != c
    ensures r.None? ==> forall i :: 0 <= i < |s| ==> s[i] != c
  {
    if s == [] then None
    else if s[0] == c then Some(0)
    else match IndexOf(s[1..], c)
      case None => None
      case Some(i) => Some(i + 1)
  }

  /**
   * An unsigned decimal numeral: digits, optionally a point and more digits,
   * with at least one digit in all (`12`, `12.`, `12.5`, `.5`).
   */
  function ParseUnsigned(s: string): (r: Option<real>)
    ensures r.Some? ==> |s| >= 1 && r.value >= 0.0
  {
    match IndexOf(s, '.')
    case None =>
      if s != [] && AllDigits(s) then Some(DigitsValue(s) as real) else None
    case Some(i) =>
      var whole, frac := s[..i], s[i + 1..];
      if |whole| + |frac| >= 1 && AllDigits(whole) && AllDigits(frac)
      then Some(DigitsValue(whole) as real + Fraction(frac))
      else None
  }

  /** Python's `float` on a decimal numeral with an optional sign. */
  function ParseDecimal(s: string): (r: Option<real>)
    ensures r.Some? ==> |s| >= 1
    ensures r.Some? && r.value < 0.0 ==> s[0] == '-'
  {
    if s != [] && s[0] == '-' then
      match ParseUnsigned(s[1..])
      case None => None
      case Some(v) => Some(-v)
    else if s != [] && s[0] == '+' then ParseUnsigned(s[1..])
    else ParseUnsigned(s)
  }

  /** The decimal digits of `n`, most significant first, without leading zeros. */
  function Show(n: nat): (s: string)
    ensures |s| >= 1 && AllDigits(s)
  {
    var d := ['0' + ((n % 10) as char)];
    if n < 10 then d else Show(n / 10) + d
  }

  /** Reading back the digits of a natural number gives the number. */
  lemma {:induction false} DigitsOfShow(n: nat)
    ensures DigitsValue(Show(n)) == n
  {
    var s := Show(n);
    if n >= 10 {
      DigitsOfShow(n / 10);
      assert s[..|s| - 1] == Show(n / 10);
    }
  }

  /** A natural number written out in decimal and its negation parse back to themselves. */
  lemma ParseShow(n: nat)
    ensures ParseDecimal(Show(n)) == Some(n as real)
    ensures ParseDecimal("-" + Show(n)) == Some(-(n as real))
  {
    DigitsOfShow(n);
    assert ("-" + Show(n))[1..] == Show(n);
  }

  /** In digits, a point and anything after it, the first point is the one after the digits. */
  lemma PointAfterDigits(whole: string, rest: string)
    requires AllDigits(whole)
    ensures IndexOf(whole + "." + rest, '.') == Some(|whole|)
    ensures (whole + "." + rest)[..|whole|] == whole && (whole + "." + rest)[|whole| + 1..] == rest
  {
    var s := whole + "." + rest;
    assert s[..|whole|] == whole && s[|whole| + 1..] == rest;
    assert s[|whole|] == '.';
    forall i | 0 <= i < |whole| ensures s[i] != '.' {
      assert s[i] == whole[i];
    }
  }

  /** One or more digits, a point and fraction digits read as the whole digits plus the fraction digits over their power of ten. */
  lemma UnsignedPoint(whole: string, frac: string)
    requires |whole| >= 1 && AllDigits(whole) && AllDigits(frac)
    ensures ParseUnsigned(whole + "." + frac)
      == Some(DigitsValue(whole) as real + Fraction(frac))
  {
    PointAfterDigits(whole, frac);
    UnsignedAtPoint(whole + "." + frac, |whole|, whole, frac);
  }

  /** A numeral whose first point is at `i`, with digits `whole`, at least one, before it and digits `frac` after it. */
  lemma UnsignedAtPoint(s: string, i: nat, whole: string, frac: string)
    requires IndexOf(s, '.') == Some(i) && i < |s| && s[..i] == whole && s[i + 1..] == frac
    requires |whole| >= 1 && AllDigits(whole) && AllDigits(frac)
    ensures ParseUnsigned(s) == Some(DigitsValue(whole) as real + Fraction(frac))
  {
  }

  /**
   * A whole number written out in decimal, a point and a string of fraction
   * digits (`"12.50"`, `"3."`) parses to the whole number plus the fraction
   * digits read over the matching power of ten, with or without a minus sign.
   */
  lemma ParseShowPoint(w: nat, frac: string)
    requires AllDigits(frac)
    ensures ParseDecimal(Show(w) + "." + frac) == Some(w as real + Fraction(frac))
    ensures ParseDecimal("-" + Show(w) + "." + frac) == Some(-(w as real + Fraction(frac)))
  {
    var s := Show(w) + "." + frac;
    UnsignedPoint(Show(w), frac);
    DigitsOfShow(w);
    assert s[0] == Show(w)[0];
    assert ("-" + Show(w) + "." + frac)[1..] == s;
  }

  /** The seconds of a duration string: the numeral before a final `s`. */
  function Seconds(duration: string): (r: Option<real>)
    ensures r.Some? ==> |duration| >= 1 && duration[|duration| - 1] == 's'
  {
    if duration != [] && duration[|duration| - 1] == 's' then ParseDecimal(duration[..|duration| - 1])
    else None
  }

  /**
   * `estimate_speed_kmh`: the speed in km/h over `distanceM` metres in the
   * reported time. There is no speed for a missing or empty duration, one not
   * ending in `s`, one whose numeral does not parse, or a time of zero or less.
   */
  function EstimateSpeed(distanceM: real, duration: Option<string>): (r: Option<real>)
    ensures r.Some? <==>
      duration.Some? && Seconds(duration.value).Some? && Seconds(duration.value).value > 0.0
  {
    if duration.None? then None
    else
      match Seconds(duration.value)
      case None => None
      case Some(sec) => if sec <= 0.0 then None else Some(distanceM / sec * 3.6)
  }

  /** Speed times time is the distance, in km/h times seconds. */
  lemma SpeedTimesTime(distanceM: real, duration: Option<string>)
    requires EstimateSpeed(distanceM, duration).Some?
    ensures EstimateSpeed(distanceM, duration).value * Seconds(duration.value).value == distanceM * 3.6
  {
    var sec := Seconds(duration.value).value;
    assert EstimateSpeed(distanceM, duration).value == distanceM / sec * 3.6;
    ScaleBack(distanceM, sec);
  }

  lemma ScaleBack(d: real, sec: real)
    requires sec > 0.0
    ensures d / sec * 3.6 * sec == d * 3.6
  {
    assert d / sec * sec == d;
  }

  /** A longer distance in the same time is a higher speed; no distance is no speed. */
  lemma SpeedMonotone(d1: real, d2: real, duration: Option<string>)
    requires 0.0 <= d1 <= d2 && EstimateSpeed(d1, duration).Some?
    ensures EstimateSpeed(d2, duration).Some?
    ensures 0.0 <= EstimateSpeed(d1, duration).value <= EstimateSpeed(d2, duration).value
    ensures d1 == 0.0 ==> EstimateSpeed(d1, duration).value == 0.0
  {
    var sec := Seconds(duration.value).value;
    assert EstimateSpeed(d1, duration).value == d1 / sec * 3.6;
    assert EstimateSpeed(d2, duration).value == d2 / sec * 3.6;
    DivMonotone(d1, d2, sec);
  }

  lemma DivMonotone(a: real, b: real, c: real)
    requires 0.0 <= a <= b && c > 0.0
    ensures 0.0 <= a / c * 3.6 <= b / c * 3.6
  {
    assert a / c <= b / c;
  }

  /** 350 metres in 67.2 seconds is 18.75 km/h. */
  lemma SpeedExample()
    ensures EstimateSpeed(350.0, Some("67.2s")) == Some(18.75)
  {
    var digits := "67.2s"[..4];
    assert digits == "67.2";
    assert IndexOf(digits, '.') == Some(2);
    assert digits[..2] == "67" && digits[3..] == "2";
    assert DigitsValue("67") == 67 by {
      assert "67"[..1] == "6";
    }
    assert DigitsValue("2") == 2 by {
      assert "2"[..0] == "";
    }
    assert ParseDecimal(digits) == Some(67.2);
  }

  const Unknown := "#888888"
  const Green := "#2E7D32"
  const Yellow := "#F9A825"
  const Orange := "#EF6C00"
  const Red := "#C62828"

  /** `grade_color`: the colour band of a speed in km/h, grey when there is no speed. */
  function GradeColor(v: Option<real>): (c: string)
    ensures c in {Unknown, Green, Yellow, Orange, Red}
    ensures c == Unknown <==> v.None?
  {
    if v.None? then Unknown
    else if v.value >= 45.0 then Green
    else if v.value >= 30.0 then Yellow
    else if v.value >= 15.0 then Orange
    else Red
  }

  /** Each band holds exactly the speeds from its lower bound, inclusive, up to the next band's. */
  lemma GradeBands(v: real)
    ensures GradeColor(Some(v)) == Green <==> v >= 45.0
    ensures GradeColor(Some(v)) == Yellow <==> 30.0 <= v < 45.0
    ensures GradeColor(Some(v)) == Orange <==> 15.0 <= v < 30.0
    ensures GradeColor(Some(v)) == Red <==> v < 15.0
  {
  }

  /** The order of the colour bands, slowest first. */
  function Rank(c: string): (r: nat)
    ensures r <= 3
  {
    if c == Green then 3 else if c == Yellow then 2 else if c == Orange then 1 else 0
  }

  /** A higher speed never gets a slower colour band. */
  lemma GradeMonotone(a: real, b: real)
    requires a <= b
    ensures Rank(GradeColor(Some(a))) <= Rank(GradeColor(Some(b)))
  {
  }

  /**
   * Python's `round(x, 1)` on the exact value: the nearest multiple of 0.1,
   * ties to the even multiple.
   */
  function Round1(x: real): real
  {
    var n := (x * 10.0).Floor;
    var f := x * 10.0 - n as real;
    var m := if f > 0.5 || (f == 0.5 && n % 2 == 1) then n + 1 else n;
    m as real / 10.0
  }

  /** The rounded value is a whole number of tenths, at most half a tenth away from the value. */
  lemma Round1Bounds(x: real)
    ensures -0.05 <= Round1(x) - x <= 0.05
    ensures (Round1(x) * 10.0).Floor as real == Round1(x) * 10.0
  {
    var n := (x * 10.0).Floor;
    var f := x * 10.0 - n as real;
    assert 0.0 <= f < 1.0;
    var m := if f > 0.5 || (f == 0.5 && n % 2 == 1) then n + 1 else n;
    assert Round1(x) == m as real / 10.0;
    assert Round1(x) * 10.0 == m as real;
  }

  /** Rounding a value that already has one decimal leaves it unchanged. */
  lemma Round1Idempotent(x: real)
    ensures Round1(Round1(x)) == Round1(x)
  {
    Round1Bounds(x);
    var r := Round1(x);
    var n := (r * 10.0).Floor;
    assert n as real == r * 10.0;
    assert Round1(r) == n as real / 10.0;
  }
}
