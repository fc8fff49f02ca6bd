/** The display formatters shared by both programs: `format_duration`
    (`str(timedelta(seconds=...))`), `format_views`, and the `:.1f` rendering of a
    quotient that both use for view counts and for file sizes in MiB. */
module Formatting {
  import opened PyValues

  // ---------------------------------------------------------------------------
  // `f"{n / d:.1f}"`: Python divides two integers into the double nearest the
  // exact quotient, then prints that double rounded half-to-even to one decimal.

  /** The multiple of `den` nearest to `num`, ties to an even quotient. */
  function RoundHalfEven(num: nat, den: nat): (q: nat)
    requires den > 0
    ensures -(den as int) <= 2 * (q * den - num) <= den
    ensures 2 * (q * den - num) == den || 2 * (q * den - num) == -(den as int) ==> q % 2 == 0
  {
    DivisionSteps(num, den);
    RoundBetween(num, den, num / den, num % den)
  }

  /** The rounding of `num`, given the multiple `q0 * den` of `den` at or below it and
      the remainder `r` above that multiple. */
  function RoundBetween(num: nat, den: nat, q0: nat, r: nat): (q: nat)
    requires den > 0 && r < den
    requires q0 * den == num - r && (q0 + 1) * den == num - r + den
    ensures -(den as int) <= 2 * (q * den - num) <= den
    ensures 2 * (q * den - num) == den || 2 * (q * den - num) == -(den as int) ==> q % 2 == 0
  {
    if 2 * r > den || (2 * r == den && q0 % 2 == 1) then q0 + 1 else q0
  }

  /** `num` lies between the multiples `num / den` and `num / den + 1` of `den`. */
  lemma DivisionSteps(num: nat, den: nat)
    requires den > 0
    ensures (num / den) * den == num - num % den
    ensures (num / den + 1) * den == num - num % den + den
    ensures 0 <= num % den < den
  {
    var q0 := num / den;
    assert (q0 + 1) * den == q0 * den + den;
  }


  function Pow2(k: nat): (p: nat)
    ensures p >= 1
  {
    if k == 0 then 1 else 2 * Pow2(k - 1)
  }

  /** 2^52: a double's 53-bit significand lies in [2^52, 2^53). */
  const TwoPow52: nat := 0x10_0000_0000_0000

  /** The least `e` for which `x * 2^e` reaches `2^52 * d`, so that the quotient
      `x / d` scaled by `2^e` has a 53-bit integer part. */
  function BinaryExponent(x: nat, d: nat): (e: nat)
    requires x > 0 && d > 0
    ensures x * Pow2(e) >= TwoPow52 * d
    ensures e > 0 ==> x * Pow2(e - 1) < TwoPow52 * d
    decreases TwoPow52 * d - x
  {
    if x >= TwoPow52 * d then 0
    else
      var e' := BinaryExponent(2 * x, d);
      assert x * Pow2(e' + 1) == (2 * x) * Pow2(e');
      assert e' > 0 ==> x * Pow2(e') == (2 * x) * Pow2(e' - 1);
      1 + e'
  }

  /** Python's `n / d` for integers `n, d > 0`: the double `m * 2^-e` nearest the
      quotient, its significand `m` rounded half-to-even. The exponent is the one
      that gives the significand 53 bits, so the bound is half a unit in the last
      place; only a quotient of 2^52 or more (exponent 0) can need more bits. */
  function NearestDouble(n: nat, d: nat): (r: (nat, nat))
    requires n > 0 && d > 0
    ensures r.1 == BinaryExponent(n, d)
    ensures -(d as int) <= 2 * (r.0 * d - n * Pow2(r.1)) <= d
    ensures 2 * (r.0 * d - n * Pow2(r.1)) == d || 2 * (r.0 * d - n * Pow2(r.1)) == -(d as int)
      ==> r.0 % 2 == 0
    ensures r.0 >= TwoPow52
    ensures r.1 > 0 ==> r.0 <= 2 * TwoPow52
  {
    var e := BinaryExponent(n, d);
    var m := RoundHalfEven(n * Pow2(e), d);
    DoubleScale(n, e);
    SignificandBounds(n * Pow2(e), d, m, e > 0);
    (m, e)
  }

  /** A multiple `m * d` within half of `d` of `x`, for `x` at least `2^52 * d` (and,
      when `belowTop`, less than `2^53 * d`), has `2^52 <= m` (and `m <= 2^53`). */
  lemma SignificandBounds(x: nat, d: nat, m: nat, belowTop: bool)
    requires d > 0 && x >= TwoPow52 * d
    requires belowTop ==> x < 2 * TwoPow52 * d
    requires -(d as int) <= 2 * (m * d - x) <= d
    ensures m >= TwoPow52
    ensures belowTop ==> m <= 2 * TwoPow52
  {
    var t := TwoPow52;
    assert (t - 1) * d == t * d - d;
    LessByFactor(t - 1, m, d);
    if belowTop {
      assert (2 * t + 1) * d == 2 * t * d + d;
      LessByFactor(m, 2 * t + 1, d);
    }
  }

  /** One more binary digit of exponent doubles the scaled numerator. */
  lemma DoubleScale(n: nat, e: nat)
    ensures e > 0 ==> n * Pow2(e) == 2 * (n * Pow2(e - 1))
  {
    if e > 0 {
      assert Pow2(e) == 2 * Pow2(e - 1);
    }
  }

  /** Cancelling a positive factor keeps a strict inequality. */
  lemma LessByFactor(a: int, b: int, d: nat)
    requires d > 0 && a * d < b * d
    ensures a < b
  {
  }

  /** Ten times the double nearest `a / d`, rounded half-to-even to an integer. */
  function Tenths(a: nat, d: nat): (t: nat)
    requires d > 0
    ensures a == 0 ==> t == 0
    ensures a > 0 ==>
      (-(Pow2(NearestDouble(a, d).1) as int)
       <= 2 * (t * Pow2(NearestDouble(a, d).1) - 10 * NearestDouble(a, d).0)
       <= Pow2(NearestDouble(a, d).1))
  {
    if a == 0 then 0
    else
      var (m, e) := NearestDouble(a, d);
      RoundHalfEven(10 * m, Pow2(e))
  }

  /** `f"{n / d:.1f}"`: an optional minus sign, the whole part, a point, one digit. */
  function Fixed1(n: int, d: nat): (s: string)
    requires d > 0
    ensures |s| >= 3 && s[|s| - 2] == '.' && IsDigit(s[|s| - 1])
    ensures (s[0] == '-') <==> n < 0
  {
    var t := Tenths(if n < 0 then -n else n, d);
    (if n < 0 then "-" else "") + NatToString(t / 10) + "." + [Digit(t % 10)]
  }

  /** `f"{size / 1024 / 1024:.1f} MB"`: dividing twice by 1024 is one division by
      2^20, exactly, so the text is that of the double nearest `size / 2^20`. */
  function MegabytesText(size: int): (s: string)
  {
    Fixed1(size, 1048576) + " MB"
  }

  // ---------------------------------------------------------------------------
  // format_views

  predicate EndsWith(s: string, suffix: string)
  {
    |suffix| <= |s| && s[|s| - |suffix|..] == suffix
  }

  /** `format_views(views)`: chosen by the thresholds 1000 and 1000000. Below a
      thousand the text is `str(views)` (it reads back, and only that text does, by
      ParseIntExact) and ` views`; above, `<digits>.<digit>` and `K views` or `M views`. */
  function FormatViews(views: int): (r: string)
    ensures views < 1000 ==> EndsWith(r, " views") && ParseInt(r[..|r| - 6]) == Some(views)
    ensures 1000 <= views < 1000000 ==> EndsWith(r, "K views") && |r| >= 10 && r[|r| - 9] == '.'
    ensures views >= 1000000 ==> EndsWith(r, "M views") && |r| >= 10 && r[|r| - 9] == '.'
  {
    if views >= 1000000 then Fixed1(views, 1000000) + "M views"
    else if views >= 1000 then Fixed1(views, 1000) + "K views"
    else
      var r := IntToString(views) + " views";
      assert r[..|r| - 6] == IntToString(views);
      ParseIntToString(views);
      r
  }

  /** The characterisation of BinaryExponent by its two bounds pins it down. */
  lemma {:induction false} BinaryExponentIs(x: nat, d: nat, e: nat)
    requires x > 0 && d > 0
    requires x * Pow2(e) >= TwoPow52 * d
    requires e > 0 ==> x * Pow2(e - 1) < TwoPow52 * d
    ensures BinaryExponent(x, d) == e
    decreases TwoPow52 * d - x
  {
    if x < TwoPow52 * d {
      assert x * Pow2(e) == (2 * x) * Pow2(e - 1);
      if e - 1 > 0 {
        assert x * Pow2(e - 1) == (2 * x) * Pow2(e - 2);
      }
      BinaryExponentIs(2 * x, d, e - 1);
    }
  }

  /** A multiple strictly within half a step of `num` is the rounded quotient. */
  lemma RoundHalfEvenIs(num: nat, den: nat, q: nat)
    requires den > 0
    requires -(den as int) < 2 * (q * den - num) < den
    ensures RoundHalfEven(num, den) == q
  {
    var q' := RoundHalfEven(num, den);
    if q' > q {
      StepApart(q', q, den);
    } else if q' < q {
      StepApart(q, q', den);
    }
  }

  lemma StepApart(hi: nat, lo: nat, den: nat)
    requires hi > lo && den > 0
    ensures hi * den - lo * den >= den
  {
    var k: nat := hi - lo - 1;
    assert hi == lo + k + 1;
    assert (lo + k + 1) * den == lo * den + k * den + den;
    assert k * den >= 0;
  }

  lemma {:induction false} Pow2Sum(a: nat, b: nat)
    ensures Pow2(a + b) == Pow2(a) * Pow2(b)
    decreases a
  {
    if a > 0 {
      Pow2Sum(a - 1, b);
      assert Pow2(a + b) == 2 * Pow2(a - 1 + b);
    }
  }

  /** The digits of `n / d` once the exponent, significand and tenths are known. */
  lemma TenthsIs(a: nat, d: nat, e: nat, m: nat, t: nat)
    requires a > 0 && d > 0
    requires a * Pow2(e) >= TwoPow52 * d && (e > 0 ==> a * Pow2(e - 1) < TwoPow52 * d)
    requires -(d as int) < 2 * (m * d - a * Pow2(e)) < d
    requires -(Pow2(e) as int) < 2 * (t * Pow2(e) - 10 * m) < Pow2(e)
    ensures Tenths(a, d) == t
  {
    BinaryExponentIs(a, d, e);
    RoundHalfEvenIs(a * Pow2(e), d, m);
    RoundHalfEvenIs(10 * m, Pow2(e), t);
  }

  lemma Pow2Facts()
    ensures Pow2(50) == 0x4_0000_0000_0000
    ensures Pow2(51) == 0x8_0000_0000_0000
    ensures Pow2(52) == 0x10_0000_0000_0000
  {
    assert Pow2(4) == 16;
    Pow2Sum(4, 4);
    Pow2Sum(8, 8);
    Pow2Sum(16, 16);
    Pow2Sum(32, 16);
    Pow2Sum(48, 2);
    Pow2Sum(50, 1);
    Pow2Sum(51, 1);
  }

  /** The worked examples: 999 views, 1500 views and 2000000 views. */
  lemma ViewsExamples()
    ensures FormatViews(999) == "999 views"
    ensures FormatViews(1500) == "1.5K views"
    ensures FormatViews(2000000) == "2.0M views"
  {
    HundredsViews();
    ThousandsViews();
    MillionsViews();
  }

  lemma HundredsViews()
    ensures FormatViews(999) == "999 views"
  {
    assert NatToString(999) == "999";
  }

  lemma ThousandsViews()
    ensures FormatViews(1500) == "1.5K views"
  {
    ThousandsExample();
  }

  lemma MillionsViews()
    ensures FormatViews(2000000) == "2.0M views"
  {
    MillionsExample();
  }

  lemma ThousandsExample()
    ensures Fixed1(1500, 1000) == "1.5"
  {
    ThousandsTenths();
    assert NatToString(1) == "1";
    assert [Digit(5)] == "5";
  }

  /** 1500 / 1000 is the double 1.5 exactly, so its tenths are 15. */
  lemma ThousandsTenths()
    ensures Tenths(1500, 1000) == 15
  {
    Pow2Facts();
    var m: nat := 0x18_0000_0000_0000;
    assert 1500 * Pow2(52) >= TwoPow52 * 1000;
    assert 1500 * Pow2(51) < TwoPow52 * 1000;
    assert m * 1000 - 1500 * Pow2(52) == 0;
    assert 15 * Pow2(52) - 10 * m == 0;
    TenthsIs(1500, 1000, 52, m, 15);
  }

  lemma MillionsExample()
    ensures Fixed1(2000000, 1000000) == "2.0"
  {
    MillionsTenths();
    assert NatToString(2) == "2";
    assert [Digit(0)] == "0";
  }

  /** 2000000 / 1000000 is the double 2.0 exactly, so its tenths are 20. */
  lemma MillionsTenths()
    ensures Tenths(2000000, 1000000) == 20
  {
    Pow2Facts();
    var m: nat := 0x10_0000_0000_0000;
    assert 2000000 * Pow2(51) >= TwoPow52 * 1000000;
    assert 2000000 * Pow2(50) < TwoPow52 * 1000000;
    assert m * 1000000 - 2000000 * Pow2(51) == 0;
    assert 20 * Pow2(51) - 10 * m == 0;
    TenthsIs(2000000, 1000000, 51, m, 20);
  }

  // ---------------------------------------------------------------------------
  // format_duration

  const SecondsPerDay := 86400

  /** `timedelta` refuses more than 999999999 days either way (OverflowError). */
  const MaxDays := 999999999

  predicate DurationInRange(seconds: int)
  {
    -MaxDays <= seconds / SecondsPerDay <= MaxDays
  }

  /** `"%02d" % n` */
  function Pad2(n: nat): (s: string)
    requires n < 100
  {
    [Digit(n / 10), Digit(n % 10)]
  }

  /** The `H:MM:SS` part of a timedelta whose seconds lie within one day. */
  function Clock(seconds: nat): string
    requires seconds < SecondsPerDay
  {
    NatToString(seconds / 3600) + ":" + Pad2(seconds / 60 % 60) + ":" + Pad2(seconds % 60)
  }

  /** `"%d day%s, "` with the plural unless the count is 1 or -1; nothing for 0 days. */
  function DayPrefix(days: int): string
  {
    if days == 0 then ""
    else IntToString(days) + (if days == 1 || days == -1 then " day, " else " days, ")
  }

  /** `str(timedelta(seconds=seconds))` for an integer: whole days (rounded down,
      so negative durations show a negative day count) and the rest as `H:MM:SS`.
      Every such text reads back, day prefix included; the day count is written with
      `day` exactly when it is 1 or -1, and a negative duration starts with `-`. */
  function FormatDuration(seconds: int): (r: string)
    requires DurationInRange(seconds)
    ensures ParseDuration(r) == Some(seconds)
    ensures var days := seconds / SecondsPerDay;
      days != 0 ==>
        (|r| >= |IntToString(days)| + 6
         && (r[..|IntToString(days)| + 6] == IntToString(days) + " day, " <==> days == 1 || days == -1))
    ensures seconds < 0 ==> r[0] == '-'
  {
    var q, rest := seconds / SecondsPerDay, seconds % SecondsPerDay;
    EuclidDays(seconds, q, rest);
    DurationFromParts(q, rest, seconds);
    DayPrefix(q) + Clock(rest)
  }

  /** Read `H:MM:SS` back, accepting only the text `str(timedelta)` writes for a time
      of day: hours below 24 with no leading zero, then minutes and seconds below 60
      as two digits each. */
  function ParseClock(s: string): Option<int>
  {
    if |s| >= 7 && s[|s| - 6] == ':' && s[|s| - 3] == ':' && (s[0] != '0' || |s| == 7)
      && AllDigits(s[..|s| - 6]) && AllDigits(s[|s| - 5..|s| - 3]) && AllDigits(s[|s| - 2..])
      && ParseNat(s[..|s| - 6]) < 24 && ParseNat(s[|s| - 5..|s| - 3]) < 60 && ParseNat(s[|s| - 2..]) < 60
    then Some(ParseNat(s[..|s| - 6]) * 3600 + ParseNat(s[|s| - 5..|s| - 3]) * 60 + ParseNat(s[|s| - 2..]))
    else None
  }

  /** The index of the last space of `s`, if it has one. */
  function LastSpace(s: string): (r: Option<nat>)
    ensures r.Some? ==>
      (r.value < |s| && s[r.value] == ' ' && forall j :: r.value < j < |s| ==> s[j] != ' ')
    ensures r.None? ==> forall j :: 0 <= j < |s| ==> s[j] != ' '
  {
    if s == [] then None
    else if s[|s| - 1] == ' ' then Some(|s| - 1)
    else LastSpace(s[..|s| - 1])
  }

  /** Read the day prefix `N day, ` (for N = 1 or -1) or `N days, ` (for any other
      non-zero N) back as N. */
  function ParseDays(p: string): Option<int>
  {
    if |p| >= 8 && p[|p| - 7..] == " days, " then
      var n := ParseInt(p[..|p| - 7]);
      if n.Some? && n.value != 0 && n.value != 1 && n.value != -1 then n else None
    else if |p| >= 7 && p[|p| - 6..] == " day, " then
      var n := ParseInt(p[..|p| - 6]);
      if n == Some(1) || n == Some(-1) then n else None
    else None
  }

  /** Read a whole `str(timedelta)` text back as seconds: an optional day prefix, which
      ends at the last space, then the clock. */
  function ParseDuration(s: string): Option<int>
  {
    match LastSpace(s)
    case None => ParseClock(s)
    case Some(k) =>
      var days, clock := ParseDays(s[..k + 1]), ParseClock(s[k + 1..]);
      if days.Some? && clock.Some? then Some(days.value * SecondsPerDay + clock.value) else None
  }

  lemma ParsePad2(n: nat)
    requires n < 100
    ensures AllDigits(Pad2(n)) && ParseNat(Pad2(n)) == n
  {
    var s := Pad2(n);
    assert s[..1] == [Digit(n / 10)];
    assert s[..1][..0] == [];
    assert ParseNat(s[..1]) == n / 10;
  }

  /** Slicing a clock text `hh:mm:ss` back into its parts. */
  lemma ClockParts(hh: string, mm: string, ss: string)
    requires |hh| >= 1 && |mm| == 2 && |ss| == 2
    ensures var s := hh + ":" + mm + ":" + ss;
      |s| >= 7 && s[|s| - 6] == ':' && s[|s| - 3] == ':'
      && s[..|s| - 6] == hh && s[|s| - 5..|s| - 3] == mm && s[|s| - 2..] == ss
  {
  }

  /** Within one day the text is `H:MM:SS`: the hours unpadded (no leading zero
      unless they are 0), minutes and seconds two digits each, and it reads back
      as the number of seconds. */
  lemma DurationWithinDay(seconds: int)
    requires 0 <= seconds < SecondsPerDay
    ensures |FormatDuration(seconds)| >= 7
    ensures FormatDuration(seconds)[|FormatDuration(seconds)| - 6] == ':'
    ensures FormatDuration(seconds)[|FormatDuration(seconds)| - 3] == ':'
    ensures FormatDuration(seconds)[0] == '0' ==> |FormatDuration(seconds)| == 7
    ensures ParseClock(FormatDuration(seconds)) == Some(seconds)
  {
    assert seconds / SecondsPerDay == 0 && seconds % SecondsPerDay == seconds;
    assert FormatDuration(seconds) == Clock(seconds);
    ClockReadsBack(seconds);
  }

  /** The clock text of a time of day, and how it reads back. */
  lemma ClockReadsBack(seconds: nat)
    requires seconds < SecondsPerDay
    ensures |Clock(seconds)| >= 7
    ensures Clock(seconds)[|Clock(seconds)| - 6] == ':' && Clock(seconds)[|Clock(seconds)| - 3] == ':'
    ensures Clock(seconds)[0] == '0' ==> |Clock(seconds)| == 7
    ensures ParseClock(Clock(seconds)) == Some(seconds)
  {
    var h, m, sec := seconds / 3600, seconds / 60 % 60, seconds % 60;
    var hs, ms, ss := NatToString(h), Pad2(m), Pad2(sec);
    assert Clock(seconds) == hs + ":" + ms + ":" + ss;
    ClockParts(hs, ms, ss);
    assert hs[0] == '0' ==> h == 0 && |hs| == 1;
    ParseNatToString(h);
    ParsePad2(m);
    ParsePad2(sec);
    ClockArithmetic(seconds);
  }

  lemma ClockArithmetic(seconds: nat)
    requires seconds < SecondsPerDay
    ensures seconds / 3600 * 3600 + seconds / 60 % 60 * 60 + seconds % 60 == seconds
  {
    var q := seconds / 60;
    assert q * 60 + seconds % 60 == seconds;
    assert q / 60 * 60 + q % 60 == q;
    assert q / 60 == seconds / 3600;
  }

  /** Whole days and the seconds left over, rounded down. */
  lemma EuclidDays(seconds: int, q: int, r: int)
    requires q == seconds / SecondsPerDay && r == seconds % SecondsPerDay
    ensures seconds == q * SecondsPerDay + r && 0 <= r < SecondsPerDay && (seconds < 0 ==> q < 0)
  {
  }

  /** The text of `days` whole days and `seconds` more, as the three clauses above. */
  lemma DurationFromParts(days: int, seconds: nat, total: int)
    requires seconds < SecondsPerDay && total == days * SecondsPerDay + seconds
    ensures ParseDuration(DayPrefix(days) + Clock(seconds)) == Some(total)
    ensures var t := DayPrefix(days) + Clock(seconds);
      days != 0 ==>
        (|t| >= |IntToString(days)| + 6
         && (t[..|IntToString(days)| + 6] == IntToString(days) + " day, " <==> days == 1 || days == -1))
    ensures days < 0 ==> (DayPrefix(days) + Clock(seconds))[0] == '-'
  {
    PrefixedClockReadsBack(days, seconds, total);
    ClockReadsBack(seconds);
    if days != 0 {
      DayPrefixWording(days, Clock(seconds));
    }
  }

  /** A day prefix followed by a clock reads back as the days and the seconds. */
  lemma PrefixedClockReadsBack(days: int, seconds: nat, total: int)
    requires seconds < SecondsPerDay && total == days * SecondsPerDay + seconds
    ensures ParseDuration(DayPrefix(days) + Clock(seconds)) == Some(total)
  {
    var c := Clock(seconds);
    ClockReadsBack(seconds);
    ClockHasNoSpace(seconds);
    if days == 0 {
      assert DayPrefix(days) + c == c;
    } else {
      DaysReadBack(days);
      PartsReadBack(DayPrefix(days), c, days, seconds, total);
    }
  }

  /** A text made of a day prefix and, after its final space, a clock reads back as
      the sum of the two. */
  lemma PartsReadBack(p: string, c: string, days: int, seconds: int, total: int)
    requires |p| >= 1 && p[|p| - 1] == ' ' && ParseDays(p) == Some(days)
    requires (forall j :: 0 <= j < |c| ==> c[j] != ' ') && ParseClock(c) == Some(seconds)
    requires total == days * SecondsPerDay + seconds
    ensures ParseDuration(p + c) == Some(total)
  {
    SpaceSplit(p, c);
    assert (p + c)[..|p|] == p && (p + c)[|p|..] == c;
  }

  /** The day prefix says `day` for 1 and -1 and `days` otherwise, and starts with `-`
      for a negative count. */
  lemma DayPrefixWording(days: int, rest: string)
    requires days != 0 && |rest| >= 1
    ensures var t, num := DayPrefix(days) + rest, IntToString(days);
      |t| >= |num| + 6
      && (t[..|num| + 6] == num + " day, " <==> days == 1 || days == -1)
      && (days < 0 ==> t[0] == '-')
  {
    var num := IntToString(days);
    var t := DayPrefix(days) + rest;
    if days == 1 || days == -1 {
      assert t[..|num| + 6] == num + " day, ";
    } else {
      assert t[|num| + 4] == 's';
      assert (num + " day, ")[|num| + 4] == ',';
    }
  }

  /** The clock text has no space in it. */
  lemma ClockHasNoSpace(seconds: nat)
    requires seconds < SecondsPerDay
    ensures forall j :: 0 <= j < |Clock(seconds)| ==> Clock(seconds)[j] != ' '
  {
    var hs, ms, ss := NatToString(seconds / 3600), Pad2(seconds / 60 % 60), Pad2(seconds % 60);
    assert Clock(seconds) == hs + ":" + ms + ":" + ss;
    assert forall j :: 0 <= j < |hs| ==> IsDigit(hs[j]);
  }

  /** The last space of `a + b`, when `a` ends in one and `b` has none, ends `a`. */
  lemma SpaceSplit(a: string, b: string)
    requires |a| >= 1 && a[|a| - 1] == ' '
    requires forall j :: 0 <= j < |b| ==> b[j] != ' '
    ensures LastSpace(a + b) == Some(|a| - 1)
  {
    var s := a + b;
    assert s[|a| - 1] == ' ';
    assert forall j :: |a| <= j < |s| ==> s[j] == b[j - |a|];
  }

  /** The day prefix of a non-zero day count reads back as that count. */
  lemma DaysReadBack(days: int)
    requires days != 0
    ensures ParseDays(DayPrefix(days)) == Some(days)
  {
    var num := IntToString(days);
    ParseIntToString(days);
    assert IsDigit(num[|num| - 1]);
    if days == 1 || days == -1 {
      SingularReadsBack(num, days);
    } else {
      PluralReadsBack(num, days);
    }
  }

  lemma SingularReadsBack(num: string, days: int)
    requires |num| >= 1 && IsDigit(num[|num| - 1]) && ParseInt(num) == Some(days)
    requires days == 1 || days == -1
    ensures ParseDays(num + " day, ") == Some(days)
  {
    var p := num + " day, ";
    if |p| >= 8 {
      assert p[|p| - 7] == num[|num| - 1];
      assert p[|p| - 7..] != " days, ";
    }
    assert p[|p| - 6..] == " day, ";
    assert p[..|p| - 6] == num;
  }

  lemma PluralReadsBack(num: string, days: int)
    requires |num| >= 1 && ParseInt(num) == Some(days)
    requires days != 0 && days != 1 && days != -1
    ensures ParseDays(num + " days, ") == Some(days)
  {
    var p := num + " days, ";
    assert p[|p| - 7..] == " days, ";
    assert p[..|p| - 7] == num;
  }

  /** The worked example: one hour, one minute and one second. */
  lemma DurationExample()
    ensures FormatDuration(3661) == "1:01:01"
  {
    assert 3661 / SecondsPerDay == 0 && 3661 % SecondsPerDay == 3661;
    assert NatToString(1) == "1" && Pad2(1) == "01";
    assert Clock(3661) == "1:01:01";
  }
}
