/** Timestamps as text, and why comparing the texts compares the times. */
module Timestamps {
  import opened Wrappers
  import opened Decimal
  import opened Calendar

  // ----- lexicographic order, as strings are compared -----

  predicate LexLess(s: string, t: string) {
    t != [] && (s == [] || s[0] < t[0] || (s[0] == t[0] && LexLess(s[1..], t[1..])))
  }

  lemma {:induction false} LexTotal(s: string, t: string)
    ensures LexLess(s, t) || LexLess(t, s) || s == t
    ensures !(LexLess(s, t) && LexLess(t, s)) && !LexLess(s, s)
    decreases |s|
  {
    if s != [] {
      LexTotal(s[1..], s[1..]);
      if t != [] {
        LexTotal(s[1..], t[1..]);
        assert s == [s[0]] + s[1..] && t == [t[0]] + t[1..];
      }
    }
  }

  lemma {:induction false} LexTransitive(s: string, t: string, u: string)
    requires LexLess(s, t) && LexLess(t, u)
    ensures LexLess(s, u)
    decreases |s|
  {
    if s != [] && s[0] == t[0] && t[0] == u[0] {
      LexTransitive(s[1..], t[1..], u[1..]);
    }
  }

  /** Equally long beginnings decide; the rest only breaks a tie. */
  lemma {:induction false} LexConcat(s: string, t: string, s': string, t': string)
    requires |s| == |t|
    ensures LexLess(s + s', t + t') <==> LexLess(s, t) || (s == t && LexLess(s', t'))
    decreases |s|
  {
    if s == [] {
      assert s + s' == s' && t + t' == t';
    } else {
      assert (s + s')[1..] == s[1..] + s' && (t + t')[1..] == t[1..] + t';
      LexConcat(s[1..], t[1..], s', t');
      assert s == [s[0]] + s[1..] && t == [t[0]] + t[1..];
    }
  }

  // ----- fixed-width numbers -----

  function Power10(w: nat): nat {
    if w == 0 then 1 else 10 * Power10(w - 1)
  }

  /** The last `w` digits of `n`. */
  function Fixed(n: nat, w: nat): (s: string)
    ensures |s| == w
  {
    if w == 0 then [] else Fixed(n / 10, w - 1) + [Digit(n % 10)]
  }

  /** `n` padded with zeros to at least `w` digits. */
  function Padded(n: nat, w: nat): string {
    if n < Power10(w) then Fixed(n, w) else Dec(n)
  }

  lemma DigitOrder(x: nat, y: nat)
    requires x < 10 && y < 10
    ensures LexLess([Digit(x)], [Digit(y)]) <==> x < y
    ensures Digit(x) == Digit(y) <==> x == y
  {
    assert [Digit(x)][1..] == [] && [Digit(y)][1..] == [];
  }

  /** Fixed-width numbers compare as numbers. */
  lemma {:induction false} FixedOrder(x: nat, y: nat, w: nat)
    requires x < Power10(w) && y < Power10(w)
    ensures LexLess(Fixed(x, w), Fixed(y, w)) <==> x < y
    ensures Fixed(x, w) == Fixed(y, w) <==> x == y
    decreases w
  {
    if w > 0 {
      FixedOrder(x / 10, y / 10, w - 1);
      DigitOrder(x % 10, y % 10);
      LexConcat(Fixed(x / 10, w - 1), Fixed(y / 10, w - 1), [Digit(x % 10)], [Digit(y % 10)]);
      hide LexLess, Power10, Digit;
      LastDigit(x, y, w);
    }
  }

  lemma LastDigit(x: nat, y: nat, w: nat)
    requires w > 0
    ensures
      var s, t := Fixed(x / 10, w - 1), Fixed(y / 10, w - 1);
      && Fixed(x, w) == s + [Digit(x % 10)] && Fixed(y, w) == t + [Digit(y % 10)]
      && (Fixed(x, w) == Fixed(y, w) <==> s == t && Digit(x % 10) == Digit(y % 10))
  {
    var s, t := Fixed(x, w), Fixed(y, w);
    assert s[..w - 1] == Fixed(x / 10, w - 1) && t[..w - 1] == Fixed(y / 10, w - 1);
  }

  // ----- timestamps -----

  const DAY_MILLIS: nat := 86_400_000

  /** Milliseconds since the epoch; a time before it counts as the epoch. */
  function SinceEpoch(t: int): nat {
    if t < 0 then 0 else t
  }

  function TimeOfDay(millis: nat): string {
    var secs := millis / 1_000;
    Fixed(secs / 3_600, 2) + ":" + (Fixed(secs % 3_600 / 60, 2) + ":" +
      (Fixed(secs % 60, 2) + "." + (Fixed(millis % 1_000, 3) + "Z")))
  }

  function Stamp(d: Date, millis: nat): string
    requires IsDate(d)
  {
    Padded(d.year, 4) + "-" + (Fixed(d.month, 2) + "-" + (Fixed(d.day, 2) + "T" + TimeOfDay(millis)))
  }

  /** An RFC 3339 UTC timestamp with millisecond precision. */
  function Rfc3339(t: int): string {
    var since := SinceEpoch(t);
    CivilDayNumber(since / DAY_MILLIS);
    Stamp(CivilFromDays(since / DAY_MILLIS), since % DAY_MILLIS)
  }

  /** One fixed-width field and its separator. */
  lemma FieldOrder(x: nat, y: nat, w: nat, sep: string, s: string, t: string)
    requires x < Power10(w) && y < Power10(w)
    ensures LexLess(Fixed(x, w) + sep + s, Fixed(y, w) + sep + t) <==> x < y || (x == y && LexLess(s, t))
  {
    FixedOrder(x, y, w);
    LexConcat(Fixed(x, w), Fixed(y, w), sep + s, sep + t);
    LexConcat(sep, sep, s, t);
    LexTotal(sep, sep);
    hide LexLess, Fixed, Power10;
    assert Fixed(x, w) + sep + s == Fixed(x, w) + (sep + s) && Fixed(y, w) + sep + t == Fixed(y, w) + (sep + t);
  }

  lemma Powers()
    ensures Power10(2) == 100 && Power10(3) == 1_000 && Power10(4) == 10_000
  {
  }

  lemma TimeOfDayOrder(x: nat, y: nat)
    requires x < DAY_MILLIS && y < DAY_MILLIS
    ensures LexLess(TimeOfDay(x), TimeOfDay(y)) <==> x < y
  {
    Powers();
    hide LexLess, Fixed, Power10;
    var p, q := x / 1_000, y / 1_000;
    var xm, ym := Fixed(x % 1_000, 3) + "Z", Fixed(y % 1_000, 3) + "Z";
    var xs, ys := Fixed(p % 60, 2) + "." + xm, Fixed(q % 60, 2) + "." + ym;
    var xn, yn := Fixed(p % 3_600 / 60, 2) + ":" + xs, Fixed(q % 3_600 / 60, 2) + ":" + ys;
    MillisOrder(x % 1_000, y % 1_000);
    FieldOrder(p % 60, q % 60, 2, ".", xm, ym);
    FieldOrder(p % 3_600 / 60, q % 3_600 / 60, 2, ":", xs, ys);
    FieldOrder(p / 3_600, q / 3_600, 2, ":", xn, yn);
    ClockOrder(x, y);
  }

  lemma MillisOrder(x: nat, y: nat)
    requires x < 1_000 && y < 1_000
    ensures LexLess(Fixed(x, 3) + "Z", Fixed(y, 3) + "Z") <==> x < y
  {
    Powers();
    FixedOrder(x, y, 3);
    LexConcat(Fixed(x, 3), Fixed(y, 3), "Z", "Z");
    LexTotal("Z", "Z");
    hide LexLess, Fixed, Power10;
  }

  /** Hours, minutes, seconds and milliseconds order a day. */
  predicate ClockBefore(x: nat, y: nat) {
    var p, q := x / 1_000, y / 1_000;
    p / 3_600 < q / 3_600 || (p / 3_600 == q / 3_600 &&
      (p % 3_600 / 60 < q % 3_600 / 60 || (p % 3_600 / 60 == q % 3_600 / 60 &&
        (p % 60 < q % 60 || (p % 60 == q % 60 && x % 1_000 < y % 1_000)))))
  }

  lemma ClockParts(p: nat)
    ensures p == 3_600 * (p / 3_600) + 60 * (p % 3_600 / 60) + p % 60
    ensures 0 <= p % 3_600 / 60 < 60 && 0 <= p % 60 < 60
  {
    var m := p % 3_600 / 60;
    assert p % 3_600 == 60 * m + p % 3_600 % 60;
    var r := p % 3_600 % 60;
    assert p == 60 * (60 * (p / 3_600) + m) + r;
    QuotientIs(p, 60, 60 * (p / 3_600) + m);
  }

  lemma MixedRadix(h: int, m: int, s: int, ms: int, h': int, m': int, s': int, ms': int)
    requires 0 <= m < 60 && 0 <= s < 60 && 0 <= ms < 1_000
    requires 0 <= m' < 60 && 0 <= s' < 60 && 0 <= ms' < 1_000
    ensures 1_000 * (3_600 * h + 60 * m + s) + ms < 1_000 * (3_600 * h' + 60 * m' + s') + ms' <==>
      (h < h' || (h == h' && (m < m' || (m == m' && (s < s' || (s == s' && ms < ms'))))))
  {
  }

  lemma ClockOrder(x: nat, y: nat)
    ensures x < y <==> ClockBefore(x, y)
  {
    var p, q := x / 1_000, y / 1_000;
    ClockParts(p);
    ClockParts(q);
    Millis(x);
    Millis(y);
    MixedRadix(p / 3_600, p % 3_600 / 60, p % 60, x % 1_000, q / 3_600, q % 3_600 / 60, q % 60, y % 1_000);
  }

  lemma Millis(x: nat)
    ensures x == 1_000 * (x / 1_000) + x % 1_000 && 0 <= x % 1_000 < 1_000
  {
  }

  /** The year a time falls in. */
  function YearOf(t: int): int {
    CivilFromDays(SinceEpoch(t) / DAY_MILLIS).year
  }

  lemma StampOrder(d: Date, e: Date, x: nat, y: nat)
    requires IsDate(d) && IsDate(e) && x < DAY_MILLIS && y < DAY_MILLIS
    requires d.year <= 9_999 && e.year <= 9_999
    ensures LexLess(Stamp(d, x), Stamp(e, y)) <==> DateBefore(d, e) || (d == e && x < y)
  {
    DateFields(d);
    DateFields(e);
    Powers();
    hide LexLess, Fixed, Power10, TimeOfDay, IsDate;
    var xt, yt := TimeOfDay(x), TimeOfDay(y);
    var xd, yd := Fixed(d.day, 2) + "T" + xt, Fixed(e.day, 2) + "T" + yt;
    var xm, ym := Fixed(d.month, 2) + "-" + xd, Fixed(e.month, 2) + "-" + yd;
    TimeOfDayOrder(x, y);
    FieldOrder(d.day, e.day, 2, "T", xt, yt);
    FieldOrder(d.month, e.month, 2, "-", xd, yd);
    FieldOrder(d.year, e.year, 4, "-", xm, ym);
  }

  /** The first millisecond of the year 10000. */
  const YEAR_10000: int := 253_402_300_800_000

  const LAST_OF_9999: Date := Date(9_999, 12, 31)

  const FIRST_OF_10000: Date := Date(10_000, 1, 1)

  lemma FirstDayOf10000()
    ensures IsDate(FIRST_OF_10000) && DayNumber(FIRST_OF_10000) == 2_932_897
    ensures IsDate(LAST_OF_9999) && DayNumber(LAST_OF_9999) == 2_932_896
  {
    YearClosedForm(10_000);
    hide DaysBeforeYear;
    NextDayNumber(LAST_OF_9999);
  }

  lemma YearBoundary(t: int)
    ensures YearOf(t) <= 9_999 <==> t < YEAR_10000
  {
    var days := SinceEpoch(t) / DAY_MILLIS;
    CivilDayNumber(days);
    FirstDayOf10000();
    hide CivilFromDays, DayNumber;
    DateOrder(CivilFromDays(days), FIRST_OF_10000);
  }

  /** Through the year 9999, timestamps compare as times do, to the millisecond. */
  lemma TimestampOrder(t: int, u: int)
    requires t < YEAR_10000 && u < YEAR_10000
    ensures LexLess(Rfc3339(t), Rfc3339(u)) <==> SinceEpoch(t) < SinceEpoch(u)
    ensures Rfc3339(t) == Rfc3339(u) <==> SinceEpoch(t) == SinceEpoch(u)
  {
    YearBoundary(t);
    YearBoundary(u);
    hide CivilFromDays, SinceEpoch, IsDate, DayNumber, Stamp, LexLess, DateBefore;
    var x, y := SinceEpoch(t), SinceEpoch(u);
    var p, q := x / DAY_MILLIS, y / DAY_MILLIS;
    CivilDayNumber(p);
    CivilDayNumber(q);
    SplitDays(x, y);
    SplitDays(y, x);
    TimestampOrderOfDays(CivilFromDays(p), CivilFromDays(q), p, q, x % DAY_MILLIS, y % DAY_MILLIS);
    TimestampOrderOfDays(CivilFromDays(q), CivilFromDays(p), q, p, y % DAY_MILLIS, x % DAY_MILLIS);
    LexTotal(Rfc3339(t), Rfc3339(u));
  }

  lemma TimestampOrderOfDays(d: Date, e: Date, p: int, q: int, x: nat, y: nat)
    requires IsDate(d) && IsDate(e) && DayNumber(d) == p && DayNumber(e) == q
    requires d.year <= 9_999 && e.year <= 9_999 && x < DAY_MILLIS && y < DAY_MILLIS
    ensures LexLess(Stamp(d, x), Stamp(e, y)) <==> p < q || (p == q && x < y)
  {
    DateOrder(d, e);
    StampOrder(d, e, x, y);
    hide DayNumber, Stamp, LexLess, IsDate;
    if p == q {
      DayNumberInjective(d, e);
    }
  }

  /** In the year 10000 the year gains a digit, and the text order turns around. */
  lemma OrderTurnsAround(d: Date, e: Date, x: nat, y: nat)
    requires IsDate(d) && IsDate(e) && d.year == 9_999 && e.year == 10_000 && x < DAY_MILLIS && y < DAY_MILLIS
    ensures LexLess(Stamp(e, y), Stamp(d, x))
  {
    FirstDigits();
    hide IsDate, TimeOfDay, Fixed, Dec, Power10;
  }

  lemma StampOfTime(t: nat, n: nat)
    requires n * DAY_MILLIS <= t < (n + 1) * DAY_MILLIS
    ensures IsDate(CivilFromDays(n)) && Rfc3339(t) == Stamp(CivilFromDays(n), t - n * DAY_MILLIS)
  {
    assert t / DAY_MILLIS == n && t % DAY_MILLIS == t - n * DAY_MILLIS;
    CivilDayNumber(n);
    hide CivilFromDays, IsDate, DayNumber, Stamp;
  }

  /** The last millisecond of the year 9999 sorts after the next one. */
  lemma OrderFailsInYear10000()
    ensures LexLess(Rfc3339(YEAR_10000), Rfc3339(YEAR_10000 - 1))
  {
    hide CivilFromDays, DayNumber, IsDate, Rfc3339, Stamp, LexLess;
    FirstDayOf10000();
    CivilInverse(FIRST_OF_10000, 2_932_897);
    CivilInverse(LAST_OF_9999, 2_932_896);
    StampOfTime(YEAR_10000 - 1, 2_932_896);
    StampOfTime(YEAR_10000, 2_932_897);
    OrderTurnsAround(LAST_OF_9999, FIRST_OF_10000, DAY_MILLIS - 1, 0);
  }

  ghost predicate OrderAgrees(t: int, u: int) {
    LexLess(Rfc3339(t), Rfc3339(u)) <==> SinceEpoch(t) < SinceEpoch(u)
  }

  /** All timestamps before some limit compare as their times do if and only if the limit is no later
      than the year 10000. */
  lemma OrderedExactlyThroughYear9999(limit: int)
    ensures (forall t, u :: t < limit && u < limit ==> OrderAgrees(t, u)) <==> limit <= YEAR_10000
  {
    hide LexLess, Rfc3339;
    if limit <= YEAR_10000 {
      forall t, u | t < limit && u < limit
        ensures OrderAgrees(t, u)
      {
        TimestampOrder(t, u);
      }
    } else {
      OrderFailsInYear10000();
      assert !OrderAgrees(YEAR_10000, YEAR_10000 - 1);
    }
  }

  lemma FirstDigits()
    ensures Padded(10_000, 4) != [] && Padded(10_000, 4)[0] == '1'
    ensures Padded(9_999, 4) != [] && Padded(9_999, 4)[0] == '9'
  {
    Powers();
    assert Dec(1) == "1";
    assert Dec(10)[0] == '1';
    assert Dec(100)[0] == '1';
    assert Dec(1_000)[0] == '1';
    assert Fixed(9, 1) == "9";
    assert Fixed(99, 2)[0] == '9';
    assert Fixed(999, 3)[0] == '9';
  }

  lemma DateFields(d: Date)
    requires IsDate(d)
    ensures 0 <= d.year && 0 <= d.month < 100 && 0 <= d.day < 100
  {
  }

  lemma SplitDays(x: nat, y: nat)
    ensures x < y <==>
      (x / DAY_MILLIS < y / DAY_MILLIS || (x / DAY_MILLIS == y / DAY_MILLIS && x % DAY_MILLIS < y % DAY_MILLIS))
  {
  }

  // ----- reading a timestamp back -----

  /** What a timestamp spells. */
  datatype Reading = Reading(date: Date, hour: nat, minute: nat, second: nat, milli: nat)

  datatype Field = NoField | Field(value: nat, rest: string)

  /** The number that the first `w` characters spell, if they are digits and `sep` follows. */
  function ReadField(s: string, w: nat, sep: char): Field {
    if w < |s| && AllDigits(s[..w]) && s[w] == sep then Field.Field(Value(s[..w]), s[w + 1..]) else NoField
  }

  /** Read `hh:mm:ss.mmmZ`. */
  function ReadTime(date: Date, s: string): Option<Reading> {
    match ReadField(s, 2, ':')
    case NoField => None
    case Field(hour, s) =>
      match ReadField(s, 2, ':')
      case NoField => None
      case Field(minute, s) =>
        match ReadField(s, 2, '.')
        case NoField => None
        case Field(second, s) =>
          match ReadField(s, 3, 'Z')
          case NoField => None
          case Field(milli, s) => if s == [] then Some(Reading(date, hour, minute, second, milli)) else None
  }

  /** Read `YYYY-MM-DDThh:mm:ss.mmmZ`, with four digits of year or more. */
  function ReadStamp(s: string): Option<Reading> {
    if DigitRun(s) < 4 then None
    else
      match ReadField(s, DigitRun(s), '-')
      case NoField => None
      case Field(year, s) =>
        match ReadField(s, 2, '-')
        case NoField => None
        case Field(month, s) =>
          match ReadField(s, 2, 'T')
          case NoField => None
          case Field(day, s) => ReadTime(Date(year, month, day), s)
  }

  lemma {:induction false} FixedRoundTrip(n: nat, w: nat)
    requires n < Power10(w)
    ensures AllDigits(Fixed(n, w)) && Value(Fixed(n, w)) == n
    decreases w
  {
    if w > 0 {
      FixedRoundTrip(n / 10, w - 1);
      DigitIsDigit(n % 10);
      hide Power10;
      assert Fixed(n, w)[..w - 1] == Fixed(n / 10, w - 1);
    }
  }

  lemma PaddedRoundTrip(n: nat)
    ensures |Padded(n, 4)| >= 4 && (n <= 9_999 ==> |Padded(n, 4)| == 4)
    ensures AllDigits(Padded(n, 4)) && Value(Padded(n, 4)) == n
  {
    Powers();
    hide Power10, Fixed, Dec, Value;
    if n < Power10(4) {
      FixedRoundTrip(n, 4);
    } else {
      DecRoundTrip(n);
      DecAtLeast(n, 4);
    }
  }

  lemma {:induction false} DecAtLeast(n: nat, w: nat)
    requires w > 0 && n >= Power10(w - 1)
    ensures |Dec(n)| >= w
    decreases w
  {
    if w > 1 {
      DecAtLeast(n / 10, w - 1);
    }
  }

  lemma ReadFieldOf(field: string, sep: string, rest: string)
    requires AllDigits(field) && |sep| == 1
    ensures ReadField(field + sep + rest, |field|, sep[0]) == Field.Field(Value(field), rest)
  {
    hide Value, AllDigits;
    var s := field + sep + rest;
    assert s[..|field|] == field && s[|field| + 1..] == rest && s[|field|] == sep[0];
  }

  lemma YearRun(year: string, rest: string)
    requires AllDigits(year)
    ensures DigitRun(year + "-" + rest) == |year|
  {
    hide DigitRun, AllDigits;
    assert year + "-" + rest == year + ("-" + rest);
    DigitRunOf(year, "-" + rest);
  }

  /** Hours, minutes, seconds and milliseconds make up the time of day. */
  lemma ClockSums(x: nat)
    requires x < DAY_MILLIS
    ensures
      var p := x / 1_000;
      && 1_000 * (3_600 * (p / 3_600) + 60 * (p % 3_600 / 60) + p % 60) + x % 1_000 == x
      && 0 <= p / 3_600 < 24 && 0 <= p % 3_600 / 60 < 60 && 0 <= p % 60 < 60 && 0 <= x % 1_000 < 1_000
  {
    var p := x / 1_000;
    Millis(x);
    ClockParts(p);
  }

  lemma ReadFourFields(d: Date, hour: string, minute: string, second: string, milli: string)
    requires |hour| == 2 && |minute| == 2 && |second| == 2 && |milli| == 3
    requires AllDigits(hour) && AllDigits(minute) && AllDigits(second) && AllDigits(milli)
    ensures ReadTime(d, hour + ":" + (minute + ":" + (second + "." + (milli + "Z"))))
         == Some(Reading(d, Value(hour), Value(minute), Value(second), Value(milli)))
  {
    hide Value, AllDigits, ReadField;
    ReadFieldOf(milli, "Z", []);
    ReadFieldOf(second, ".", milli + "Z");
    ReadFieldOf(minute, ":", second + "." + (milli + "Z"));
    ReadFieldOf(hour, ":", minute + ":" + (second + "." + (milli + "Z")));
    assert milli + "Z" + [] == milli + "Z";
  }

  lemma ReadBackTime(d: Date, x: nat)
    requires x < DAY_MILLIS
    ensures
      var p := x / 1_000;
      ReadTime(d, TimeOfDay(x)) == Some(Reading(d, p / 3_600, p % 3_600 / 60, p % 60, x % 1_000))
    ensures |TimeOfDay(x)| == 13
  {
    Powers();
    ClockSums(x);
    hide Power10, Fixed, Value, AllDigits, ReadTime;
    var p := x / 1_000;
    FixedRoundTrip(p / 3_600, 2);
    FixedRoundTrip(p % 3_600 / 60, 2);
    FixedRoundTrip(p % 60, 2);
    FixedRoundTrip(x % 1_000, 3);
    ReadFourFields(d, Fixed(p / 3_600, 2), Fixed(p % 3_600 / 60, 2), Fixed(p % 60, 2), Fixed(x % 1_000, 3));
  }

  lemma ReadBackStamp(d: Date, x: nat)
    requires IsDate(d) && x < DAY_MILLIS
    ensures
      var p := x / 1_000;
      ReadStamp(Stamp(d, x)) == Some(Reading(d, p / 3_600, p % 3_600 / 60, p % 60, x % 1_000))
    ensures |Stamp(d, x)| >= 24 && (d.year <= 9_999 ==> |Stamp(d, x)| == 24)
  {
    DateFields(d);
    Powers();
    hide Power10, Fixed, Padded, Value, AllDigits, IsDate, ReadField, ReadTime, TimeOfDay, DigitRun;
    PaddedRoundTrip(d.year);
    FixedRoundTrip(d.month, 2);
    FixedRoundTrip(d.day, 2);
    ReadBackTime(d, x);
    var year, month, day, time := Padded(d.year, 4), Fixed(d.month, 2), Fixed(d.day, 2), TimeOfDay(x);
    ReadFieldOf(day, "T", time);
    ReadFieldOf(month, "-", day + "T" + time);
    ReadFieldOf(year, "-", month + "-" + (day + "T" + time));
    YearRun(year, month + "-" + (day + "T" + time));
  }

  /** A timestamp of any time is read back to a date and a time of day that are exactly that time, to the
      millisecond; through the year 9999 it has 24 characters. */
  lemma ReadBack(t: int)
    ensures match ReadStamp(Rfc3339(t))
            case None => false
            case Some(r) =>
              && IsDate(r.date) && r.hour < 24 && r.minute < 60 && r.second < 60 && r.milli < 1_000
              && 86_400_000 * DayNumber(r.date) + 1_000 * (3_600 * r.hour + 60 * r.minute + r.second) + r.milli
                 == (if t < 0 then 0 else t)
    ensures |Rfc3339(t)| >= 24 && (t < YEAR_10000 ==> |Rfc3339(t)| == 24)
  {
    var since := SinceEpoch(t);
    var n, x := since / DAY_MILLIS, since % DAY_MILLIS;
    CivilDayNumber(n);
    YearBoundary(t);
    ReadBackStamp(CivilFromDays(n), x);
    ClockSums(x);
    hide CivilFromDays, IsDate, DayNumber, Stamp, ReadStamp;
    assert since == DAY_MILLIS * n + x;
  }
}
