/**
 The compatibility text form of ledger timestamps: RFC 3339 with nanoseconds, section 5.6 of
 RFC 3339 (internal/dbtime/dbtime.go over Go's time package).
 */
module LegacyText {
  import opened Results
  import opened Int64
  import opened LedgerTime
  import opened Calendar

  // ---- decimal digits

  predicate IsDigit(c: char) {
    '0' <= c <= '9'
  }

  predicate AllDigits(s: string) {
    forall i | 0 <= i < |s| :: IsDigit(s[i])
  }

  function DigitChar(d: int): (c: char)
    requires 0 <= d < 10
    ensures IsDigit(c) && DigitValue(c) == d
  {
    ('0' as int + d) as char
  }

  function DigitValue(c: char): int {
    c as int - '0' as int
  }

  /** The last `w` decimal digits of `n`. */
  function Pad(n: nat, w: nat): (s: string)
    ensures |s| == w && AllDigits(s)
    decreases w
  {
    if w == 0 then "" else Pad(n / 10, w - 1) + [DigitChar(n % 10)]
  }

  function Decimal(n: nat): (s: string)
    ensures AllDigits(s) && (n >= 10000 ==> |s| >= 5) && (n >= 1000 ==> |s| >= 4) && (n >= 100 ==> |s| >= 3) &&
            (n >= 10 ==> |s| >= 2) && |s| >= 1
  {
    if n < 10 then [DigitChar(n)] else Decimal(n / 10) + [DigitChar(n % 10)]
  }

  function Value(s: string): nat
    requires AllDigits(s)
  {
    if s == "" then 0 else Value(s[..|s|-1]) * 10 + DigitValue(s[|s|-1])
  }

  function Pow10(k: nat): nat {
    if k == 0 then 1 else 10 * Pow10(k - 1)
  }

  lemma {:induction false} PadValue(n: nat, w: nat)
    requires n < Pow10(w)
    ensures Value(Pad(n, w)) == n
    decreases w
  {
    if w > 0 {
      PadValue(n / 10, w - 1);
      assert Pad(n, w)[..w-1] == Pad(n / 10, w - 1);
    }
  }

  /** Drops trailing zeros. */
  function Strip(s: string): (r: string)
    ensures |r| <= |s| && r == s[..|r|] && (r != "" ==> r[|r|-1] != '0')
  {
    if s != "" && s[|s|-1] == '0' then Strip(s[..|s|-1]) else s
  }

  lemma {:induction false} StripValue(s: string)
    requires AllDigits(s)
    ensures AllDigits(Strip(s)) && Value(Strip(s)) * Pow10(|s| - |Strip(s)|) == Value(s)
  {
    if s != "" && s[|s|-1] == '0' {
      var front := s[..|s|-1];
      StripValue(front);
      ScaleStep(Value(Strip(front)), |front| - |Strip(front)|);
    }
  }

  lemma ScaleStep(v: nat, k: nat)
    ensures v * Pow10(k + 1) == v * Pow10(k) * 10
  {
    assert Pow10(k + 1) == 10 * Pow10(k);
  }

  // ---- text out

  const DAY_SECONDS: int := 86_400

  function DayOf(t: Time): int { t.sec / DAY_SECONDS + EPOCH_DAY }

  datatype Clock = Clock(hour: nat, minute: nat, second: nat)

  predicate ValidClock(c: Clock) {
    c.hour <= 23 && c.minute <= 59 && c.second <= 59
  }

  function SecondOfDay(c: Clock): nat { c.hour * 3600 + c.minute * 60 + c.second }

  function ClockOf(t: Time): Clock {
    var sod := t.sec % DAY_SECONDS;
    Clock(sod / 3600, sod / 60 % 60, sod % 60)
  }

  function YearOf(t: Time): int { DateOf(DayOf(t)).year }

  function FormatYear(y: int): string {
    var n := if y < 0 then -y else y;
    (if y < 0 then "-" else "") + if n < 10000 then Pad(n, 4) else Decimal(n)
  }

  function FormatFraction(nsec: int): string
    requires 0 <= nsec
  {
    if nsec == 0 then "" else "." + Strip(Pad(nsec, 9))
  }

  /** Month, day and time of day: everything between the year and the fraction. */
  function Middle(m: string, d: string, h: string, n: string, x: string): string {
    "-" + m + "-" + d + "T" + h + ":" + n + ":" + x
  }

  function FormatMiddle(m: nat, d: nat, clock: Clock): string {
    Middle(Pad(m, 2), Pad(d, 2), Pad(clock.hour, 2), Pad(clock.minute, 2), Pad(clock.second, 2))
  }

  function Format(t: Time): string
    requires t.Valid()
  {
    var date := DateOf(DayOf(t));
    DateRoundTrip(DayOf(t));
    FormatYear(date.year) + FormatMiddle(date.month, date.day, ClockOf(t)) + FormatFraction(t.nsec) + "Z"
  }

  function FormatLegacy(t: Time): string
    requires t.Valid()
  {
    if t == ZERO then "" else Format(t)
  }

  // ---- text in

  function ParseUint(s: string, lo: int, hi: int): Option<nat> {
    if !AllDigits(s) then None
    else if lo <= Value(s) <= hi then Some(Value(s)) else None
  }

  function DigitRun(s: string): (n: nat)
    ensures n <= |s| && AllDigits(s[..n]) && (n < |s| ==> !IsDigit(s[n]))
  {
    if s == "" || !IsDigit(s[0]) then 0
    else
      var n := DigitRun(s[1..]);
      assert s[..n+1] == [s[0]] + s[1..][..n];
      n + 1
  }

  /** Nanoseconds from a run of fraction digits, of which at most nine count. */
  function Scaled(run: string): nat
    requires AllDigits(run)
  {
    if |run| > 9 then Value(run[..9]) else Value(run) * Pow10(9 - |run|)
  }

  /** The optional fraction and what follows. */
  function ParseFraction(s: string): (nat, string) {
    if |s| >= 2 && s[0] == '.' && IsDigit(s[1]) then
      var rest := s[1..];
      (Scaled(rest[..DigitRun(rest)]), rest[DigitRun(rest)..])
    else (0, s)
  }

  /** The zone offset in seconds: `Z`, or a sign, hours and minutes. */
  function ParseZone(s: string): Option<int> {
    if s == "Z" then Some(0)
    else if |s| != 6 then None
    else
      match (ParseUint(s[1..3], 0, 24), ParseUint(s[4..6], 0, 60))
      case (Some(hr), Some(mm)) =>
        if (s[0] == '-' || s[0] == '+') && s[3] == ':' then
          var offset: int := (hr * 60 + mm) * 60;
          Some(if s[0] == '-' then -offset else offset)
        else None
      case _ => None
  }

  /** The separators of the fixed-width part. */
  predicate Separators(s: string)
    requires |s| >= 19
  {
    s[4] == '-' && s[7] == '-' && s[10] == 'T' && s[13] == ':' && s[16] == ':'
  }

  function ParseDate(s: string): Option<Date>
    requires |s| >= 19
  {
    match (ParseUint(s[0..4], 0, 9999), ParseUint(s[5..7], 1, 12))
    case (Some(y), Some(m)) =>
      (match ParseUint(s[8..10], 1, DaysInMonth(Leap(y), m))
       case Some(d) => Some(Date(y, m, d))
       case None => None)
    case _ => None
  }

  function ParseClock(s: string): Option<Clock>
    requires |s| >= 19
  {
    match (ParseUint(s[11..13], 0, 23), ParseUint(s[14..16], 0, 59), ParseUint(s[17..19], 0, 59))
    case (Some(h), Some(m), Some(x)) => Some(Clock(h, m, x))
    case _ => None
  }

  /** The instant at which a clock at the given offset from UTC shows the date and time. */
  function LocalTime(date: Date, c: Clock, offset: int, nsec: nat): Time
    requires ValidDate(date)
  {
    Time((DayNumber(date) - EPOCH_DAY) * DAY_SECONDS + SecondOfDay(c) - offset, nsec)
  }

  function Parse(s: string): Result<Time, TimeError> {
    if |s| < 19 || !Separators(s) then Err(Unparseable)
    else
      match (ParseDate(s), ParseClock(s), ParseZone(ParseFraction(s[19..]).1))
      case (Some(date), Some(clock), Some(offset)) =>
        if ValidDate(date) then Ok(LocalTime(date, clock, offset, ParseFraction(s[19..]).0))
        else Err(Unparseable)
      case _ => Err(Unparseable)
  }

  function ParseLegacy(s: string): Result<Time, TimeError> {
    if s == "" then Ok(ZERO) else Parse(s)
  }

  // ---- the round trip

  function Fixed(y: string, m: string, d: string, h: string, n: string, x: string): string {
    y + Middle(m, d, h, n, x)
  }

  /** Where the fixed-width fields of a timestamp sit. */
  lemma FieldSlices(y: string, m: string, d: string, h: string, n: string, x: string, tail: string)
    requires |y| == 4 && |m| == |d| == |h| == |n| == |x| == 2
    ensures var s := Fixed(y, m, d, h, n, x) + tail;
            && |s| >= 19 && Separators(s) && s[19..] == tail
            && s[0..4] == y && s[5..7] == m && s[8..10] == d && s[11..13] == h && s[14..16] == n && s[17..19] == x
  {
  }

  lemma {:induction false} DigitRunExact(a: string, b: string)
    requires AllDigits(a) && b != "" && !IsDigit(b[0])
    ensures DigitRun(a + b) == |a|
  {
    if a != "" {
      assert (a + b)[0] == a[0] && (a + b)[1..] == a[1..] + b;
      DigitRunExact(a[1..], b);
    } else {
      assert a + b == b;
    }
  }

  /** A zone starts with a letter or a sign. */
  predicate ZoneStart(zone: string) {
    zone != "" && !IsDigit(zone[0]) && zone[0] != '.'
  }

  lemma FractionReads(digits: string, zone: string)
    requires AllDigits(digits) && 1 <= |digits| <= 9 && ZoneStart(zone)
    ensures ParseFraction("." + digits + zone) == (Scaled(digits), zone)
  {
    var s, rest := "." + digits + zone, digits + zone;
    assert s[1..] == rest && s[1] == digits[0];
    DigitRunExact(digits, zone);
    assert rest[..|digits|] == digits && rest[|digits|..] == zone;
  }

  lemma FractionDigits(nsec: int)
    requires 0 < nsec < BILLION
    ensures var digits := Strip(Pad(nsec, 9));
            AllDigits(digits) && 1 <= |digits| <= 9 && Scaled(digits) == nsec
  {
    NineDigits();
    PadValue(nsec, 9);
    StripScaled(Pad(nsec, 9));
  }

  lemma NineDigits()
    ensures Pow10(9) == BILLION
  {
    assert Pow10(5) == 100000;
  }

  lemma StripScaled(s: string)
    requires AllDigits(s) && |s| == 9 && Value(s) > 0
    ensures AllDigits(Strip(s)) && 1 <= |Strip(s)| <= 9 && Scaled(Strip(s)) == Value(s)
  {
    StripValue(s);
  }

  lemma FractionRoundTrip(nsec: int, zone: string)
    requires 0 <= nsec < BILLION && ZoneStart(zone)
    ensures ParseFraction(FormatFraction(nsec) + zone) == (nsec, zone)
  {
    if nsec == 0 {
      assert FormatFraction(nsec) + zone == zone;
    } else {
      FractionDigits(nsec);
      FractionReads(Strip(Pad(nsec, 9)), zone);
    }
  }

  lemma ClockSplit(t: Time)
    ensures ValidClock(ClockOf(t)) && SecondOfDay(ClockOf(t)) == t.sec % DAY_SECONDS
  {
    var sod := t.sec % DAY_SECONDS;
    assert sod / 3600 == sod / 60 / 60;
  }

  lemma PadUint(n: nat, w: nat, lo: int, hi: int)
    requires n < Pow10(w) && lo <= n <= hi
    ensures ParseUint(Pad(n, w), lo, hi) == Some(n)
  {
    PadValue(n, w);
  }

  lemma TwoDigits(n: nat, lo: int, hi: int)
    requires lo <= n <= hi < 100
    ensures ParseUint(Pad(n, 2), lo, hi) == Some(n)
  {
    assert Pow10(2) == 100;
    PadUint(n, 2, lo, hi);
  }

  lemma DateReads(s: string, date: Date)
    requires ValidDate(date) && 0 <= date.year <= 9999 && |s| >= 19
    requires s[0..4] == Pad(date.year, 4) && s[5..7] == Pad(date.month, 2) && s[8..10] == Pad(date.day, 2)
    ensures ParseDate(s) == Some(date)
  {
    assert ParseUint(s[0..4], 0, 9999) == Some(date.year) by {
      assert Pow10(4) == 10000;
      PadUint(date.year, 4, 0, 9999);
    }
    assert ParseUint(s[5..7], 1, 12) == Some(date.month) by { TwoDigits(date.month, 1, 12); }
    var days := DaysInMonth(Leap(date.year), date.month);
    assert ParseUint(s[8..10], 1, days) == Some(date.day) by { TwoDigits(date.day, 1, days); }
  }

  lemma ClockReads(s: string, c: Clock)
    requires ValidClock(c) && |s| >= 19
    requires s[11..13] == Pad(c.hour, 2) && s[14..16] == Pad(c.minute, 2) && s[17..19] == Pad(c.second, 2)
    ensures ParseClock(s) == Some(c)
  {
    TwoDigits(c.hour, 0, 23);
    TwoDigits(c.minute, 0, 59);
    TwoDigits(c.second, 0, 59);
  }

  /** The text starts with the date and the clock in fixed width, and `tail` follows. */
  predicate Reads(s: string, date: Date, c: Clock, tail: string) {
    && |s| >= 19 && Separators(s) && s[19..] == tail
    && ParseDate(s) == Some(date) && ParseClock(s) == Some(c)
  }

  lemma ShortYear(y: int)
    requires 0 <= y <= 9999
    ensures FormatYear(y) == Pad(y, 4)
  {
    assert "" + Pad(y, 4) == Pad(y, 4);
  }

  /** The fixed-width part of a formatted time reads back as its date and clock. */
  lemma FixedRoundTrip(date: Date, c: Clock, tail: string)
    requires ValidDate(date) && 0 <= date.year <= 9999 && ValidClock(c)
    ensures Reads(FormatYear(date.year) + FormatMiddle(date.month, date.day, c) + tail, date, c, tail)
  {
    var s := FormatYear(date.year) + FormatMiddle(date.month, date.day, c) + tail;
    ShortYear(date.year);
    FieldSlices(Pad(date.year, 4), Pad(date.month, 2), Pad(date.day, 2),
                Pad(c.hour, 2), Pad(c.minute, 2), Pad(c.second, 2), tail);
    DateReads(s, date);
    ClockReads(s, c);
  }

  lemma ParseReads(s: string, date: Date, c: Clock, tail: string, nsec: nat, zone: string, offset: int)
    requires Reads(s, date, c, tail) && ParseFraction(tail) == (nsec, zone) && ParseZone(zone) == Some(offset)
    requires ValidDate(date)
    ensures Parse(s) == Ok(LocalTime(date, c, offset, nsec))
  {
  }

  /** A date, a clock, a fraction and a zone are read as that local time: the zone's offset is subtracted. */
  lemma LocalTimeRead(s: string, date: Date, c: Clock, nsec: nat, zone: string, offset: int)
    requires Reads(s, date, c, FormatFraction(nsec) + zone) && ValidDate(date) && nsec < BILLION
    requires ZoneStart(zone) && ParseZone(zone) == Some(offset)
    ensures Parse(s).Ok? && Parse(s).value.nsec == nsec
    ensures Parse(s).value.sec ==
            (DayNumber(date) - 719_528) * 86_400 + c.hour * 3600 + c.minute * 60 + c.second - offset
  {
    FractionRoundTrip(nsec, zone);
    ParseReads(s, date, c, FormatFraction(nsec) + zone, nsec, zone, offset);
  }

  lemma SecondsOfDay(t: Time)
    ensures ValidDate(DateOf(DayOf(t)))
    ensures (DayNumber(DateOf(DayOf(t))) - EPOCH_DAY) * DAY_SECONDS + t.sec % DAY_SECONDS == t.sec
  {
    DateRoundTrip(DayOf(t));
  }

  lemma ZoneFields(sign: char, h: string, m: string)
    requires |h| == |m| == 2
    ensures var s := [sign] + h + ":" + m; |s| == 6 && s[0] == sign && s[1..3] == h && s[3] == ':' && s[4..6] == m
  {
  }

  /** East of Greenwich is plus, and hours come before minutes. */
  lemma OffsetRead(sign: char, h: nat, m: nat)
    requires h <= 24 && m <= 60 && (sign == '+' || sign == '-')
    ensures ParseZone([sign] + Pad(h, 2) + ":" + Pad(m, 2)) ==
            Some(if sign == '+' then h * 3600 + m * 60 else -(h * 3600 + m * 60))
  {
    TwoDigits(h, 0, 24);
    TwoDigits(m, 0, 60);
    ZoneFields(sign, Pad(h, 2), Pad(m, 2));
  }

  lemma LocalTimeBack(t: Time)
    requires t.Valid()
    ensures ValidDate(DateOf(DayOf(t))) && ValidClock(ClockOf(t))
    ensures LocalTime(DateOf(DayOf(t)), ClockOf(t), 0, t.nsec) == t
  {
    ClockSplit(t);
    SecondsOfDay(t);
  }

  lemma FormatReads(t: Time)
    requires t.Valid() && 0 <= YearOf(t) <= 9999
    ensures Reads(Format(t), DateOf(DayOf(t)), ClockOf(t), FormatFraction(t.nsec) + "Z")
  {
    FormatParts(t);
    ClockSplit(t);
    FixedRoundTrip(DateOf(DayOf(t)), ClockOf(t), FormatFraction(t.nsec) + "Z");
  }

  lemma FormatParse(t: Time)
    requires t.Valid() && 0 <= YearOf(t) <= 9999
    ensures Parse(Format(t)) == Ok(t)
  {
    FormatReads(t);
    FractionRoundTrip(t.nsec, "Z");
    LocalTimeBack(t);
    ParseReads(Format(t), DateOf(DayOf(t)), ClockOf(t), FormatFraction(t.nsec) + "Z", t.nsec, "Z", 0);
  }

  lemma FormatParts(t: Time)
    requires t.Valid()
    ensures ValidDate(DateOf(DayOf(t)))
    ensures var date := DateOf(DayOf(t));
            Format(t) == FormatYear(date.year) + FormatMiddle(date.month, date.day, ClockOf(t)) +
            (FormatFraction(t.nsec) + "Z")
  {
    DateRoundTrip(DayOf(t));
  }

  /** A year that needs a sign or a fifth digit is not read back. */
  lemma WideYearRejected(t: Time)
    requires t.Valid() && !(0 <= YearOf(t) <= 9999)
    ensures Parse(Format(t)).Err?
  {
    FormatParts(t);
    WideYearText(Format(t), YearOf(t));
  }

  lemma WideYearText(s: string, y: int)
    requires !(0 <= y <= 9999) && FormatYear(y) <= s
    ensures Parse(s).Err?
  {
    var text := FormatYear(y);
    if y < 0 {
      assert text[0] == '-' == s[0];
      if |s| >= 19 { assert s[0..4][0] == '-'; }
    } else {
      assert text == Decimal(y);
      assert s[4] == text[4] && IsDigit(text[4]);
    }
  }

  /** Text out and text in are inverse exactly for the years 0 to 9999. */
  lemma LegacyTextExact(t: Time)
    requires t.Valid()
    ensures ParseLegacy(FormatLegacy(t)) == Ok(t) <==> t == ZERO || 0 <= YearOf(t) <= 9999
  {
    if t != ZERO {
      assert Format(t)[|Format(t)|-1] == 'Z';
      if 0 <= YearOf(t) <= 9999 { FormatParse(t); } else { WideYearRejected(t); }
    }
  }

  // ---- the conversions of the ledger

  function LegacyToUnixNano(s: string): Result<int, TimeError> {
    match ParseLegacy(s)
    case Err(e) => Err(e)
    case Ok(t) => ToUnixNano(t)
  }

  function UnixNanoToLegacy(nanos: int): string {
    UnixCounts(nanos);
    FormatLegacy(FromUnixNano(nanos))
  }

  function VerifyLegacyRoundTrip(legacy: string, nanos: int): Result<(), TimeError> {
    match LegacyToUnixNano(legacy)
    case Err(_) => Err(Corrupt)
    case Ok(want) => if want != nanos then Err(Corrupt) else Ok(())
  }

  /** A day number is at least 365 times its year. */
  lemma YearBound(day: int)
    requires 0 <= day
    ensures 0 <= DateOf(day).year && 365 * DateOf(day).year <= day
  {
    var (y, q) := SplitYear(day % ERA_DAYS, 0);
    SplitYearCorrect(day % ERA_DAYS, 0);
    YearsAtLeast(y);
  }

  lemma {:induction false} YearsAtLeast(y: nat)
    ensures DaysBeforeYear(y) >= 365 * y
  {
    if y > 0 { YearsAtLeast(y - 1); }
  }

  lemma Int64Years(nanos: int)
    requires MIN_INT64 < nanos <= MAX_INT64
    ensures 0 <= YearOf(Unix(nanos)) <= 9999
  {
    UnixCounts(nanos);
    var t := Unix(nanos);
    assert -9_223_372_037 <= t.sec <= 9_223_372_036;
    assert 0 <= DayOf(t) <= 1_000_000;
    YearBound(DayOf(t));
  }

  /** Number to text to number is the identity on every 64-bit integer. */
  lemma NumberTextNumber(nanos: int)
    requires MIN_INT64 <= nanos <= MAX_INT64
    ensures LegacyToUnixNano(UnixNanoToLegacy(nanos)) == Ok(nanos)
  {
    UnixCounts(nanos);
    var t := FromUnixNano(nanos);
    if nanos != UNSET { Int64Years(nanos); }
    LegacyTextExact(t);
    FromTo(nanos);
  }

  /** Beside the text of a representable time, the corruption check accepts that time's number and no other. */
  lemma WrittenRowVerifies(t: Time, nanos: int)
    requires t.Valid() && ToUnixNano(t).Ok?
    ensures VerifyLegacyRoundTrip(FormatLegacy(t), nanos).Ok? <==> nanos == ToUnixNano(t).value
  {
    ToUnixNanoExact(t);
    ToFrom(t);
    NumberTextNumber(ToUnixNano(t).value);
  }

  // ---- fixed points of the text form

  lemma EpochDay()
    ensures DateOf(719_528) == Date(1970, 1, 1)
  {
    YearsClosedForm(370);
    MonthsFillYear(Leap(1970));
    DateIs(719_528, Date(1970, 1, 1));
  }

  lemma ZeroDay()
    ensures DateOf(366) == Date(1, 1, 1)
  {
    YearsClosedForm(1);
    MonthsFillYear(Leap(1));
    DateIs(366, Date(1, 1, 1));
  }

  /** The Unix epoch is January 1, 1970, and Go's zero time January 1 of year 1. */
  lemma Anchors()
    ensures DateOf(DayOf(Time(0, 0))) == Date(1970, 1, 1)
    ensures DateOf(DayOf(ZERO)) == Date(1, 1, 1)
  {
    EpochDay();
    ZeroDay();
  }

  lemma SampleDate()
    ensures DateOf(DayOf(Time(1_103_778_367, 80_000_000))) == Date(2004, 12, 23)
  {
    YearsClosedForm(4);
    assert DaysFromMonth(true, 12) == 31;
    DateIs(12_775 + EPOCH_DAY, Date(2004, 12, 23));
  }

  /** Digits of one length are determined by their value. */
  lemma {:induction false} DigitsUnique(s: string, t: string)
    requires AllDigits(s) && AllDigits(t) && |s| == |t| && Value(s) == Value(t)
    ensures s == t
  {
    if s != "" {
      var n := |s| - 1;
      assert Value(s[..n]) == Value(t[..n]) && s[n] == t[n] by {
        LastDigit(Value(s[..n]), DigitValue(s[n]), Value(t[..n]), DigitValue(t[n]));
      }
      DigitsUnique(s[..n], t[..n]);
      assert s == s[..n] + [s[n]] && t == t[..n] + [t[n]];
    }
  }

  lemma LastDigit(x: nat, a: int, y: nat, b: int)
    requires 0 <= a < 10 && 0 <= b < 10 && x * 10 + a == y * 10 + b
    ensures x == y && a == b
  {
  }

  lemma {:induction false} ValueBound(s: string)
    requires AllDigits(s)
    ensures Value(s) < Pow10(|s|)
  {
    if s != "" { ValueBound(s[..|s|-1]); }
  }

  /** The text of a number: as many digits, with that value. */
  lemma PadIs(n: nat, s: string)
    requires AllDigits(s) && Value(s) == n
    ensures Pad(n, |s|) == s
  {
    ValueBound(s);
    PadValue(n, |s|);
    DigitsUnique(Pad(n, |s|), s);
  }

  lemma TwoDigitText(a: char, b: char)
    requires IsDigit(a) && IsDigit(b)
    ensures Pad(DigitValue(a) * 10 + DigitValue(b), 2) == [a, b]
  {
    var s := [a, b];
    assert s[..1] == [a] && [a][..0] == "";
    assert Value([a]) == DigitValue(a);
    PadIs(DigitValue(a) * 10 + DigitValue(b), s);
  }

  lemma FourDigitText(a: char, b: char, c: char, d: char)
    requires IsDigit(a) && IsDigit(b) && IsDigit(c) && IsDigit(d)
    ensures Pad(((DigitValue(a) * 10 + DigitValue(b)) * 10 + DigitValue(c)) * 10 + DigitValue(d), 4) == [a, b, c, d]
  {
    var s := [a, b, c, d];
    assert s[..3] == [a, b, c] && [a, b, c][..2] == [a, b] && [a, b][..1] == [a] && [a][..0] == "";
    assert Value([a]) == DigitValue(a);
    assert Value([a, b]) == Value([a]) * 10 + DigitValue(b);
    assert Value([a, b, c]) == Value([a, b]) * 10 + DigitValue(c);
    PadIs(Value(s), s);
  }

  lemma TimesTen(n: nat, k: nat)
    ensures n * Pow10(k + 1) == 10 * (n * Pow10(k))
  {
    assert Pow10(k + 1) == 10 * Pow10(k);
  }

  lemma PadTen(m: nat, w: nat)
    ensures Pad(10 * m, w + 1) == Pad(m, w) + ['0']
  {
    assert 10 * m / 10 == m && 10 * m % 10 == 0;
  }

  lemma {:induction false} PadZeros(n: nat, w: nat, k: nat)
    requires n < Pow10(w)
    ensures Pad(n * Pow10(k), w + k) == Pad(n, w) + seq(k, _ => '0')
    decreases k
  {
    if k == 0 {
      assert Pad(n, w) + seq(k, _ => '0') == Pad(n, w);
    } else {
      PadZeros(n, w, k - 1);
      TimesTen(n, k - 1);
      PadTen(n * Pow10(k - 1), w + k - 1);
      assert seq(k, _ => '0') == seq(k - 1, _ => '0') + ['0'];
    }
  }

  lemma {:induction false} StripZeros(s: string, k: nat)
    requires s != "" && s[|s|-1] != '0'
    ensures Strip(s + seq(k, _ => '0')) == s
    decreases k
  {
    var t := s + seq(k, _ => '0');
    if k == 0 {
      assert t == s;
    } else {
      assert t[..|t|-1] == s + seq(k - 1, _ => '0');
      StripZeros(s, k - 1);
    }
  }

  lemma SampleFraction()
    ensures FormatFraction(80_000_000) == ".08"
  {
    assert Pow10(2) == 100 && Pow10(7) == 10_000_000;
    PadZeros(8, 2, 7);
    TwoDigitText('0', '8');
    StripZeros("08", 7);
  }

  lemma SampleDatePads()
    ensures Pad(2004, 4) == "2004" && Pad(12, 2) == "12" && Pad(23, 2) == "23"
  {
    FourDigitText('2', '0', '0', '4');
    TwoDigitText('1', '2');
    TwoDigitText('2', '3');
  }

  lemma SampleClockPads()
    ensures Pad(5, 2) == "05" && Pad(6, 2) == "06" && Pad(7, 2) == "07"
  {
    TwoDigitText('0', '5');
    TwoDigitText('0', '6');
    TwoDigitText('0', '7');
  }

  lemma EpochPads()
    ensures Pad(1970, 4) == "1970" && Pad(1, 2) == "01" && Pad(0, 2) == "00"
  {
    FourDigitText('1', '9', '7', '0');
    TwoDigitText('0', '1');
    TwoDigitText('0', '0');
  }

  /** The layout of a timestamp, from its parts. */
  lemma Assembled(t: Time, y: string, m: string, d: string, h: string, n: string, x: string, f: string)
    requires t.Valid() && t != ZERO && 0 <= YearOf(t) <= 9999
    requires var date, c := DateOf(DayOf(t)), ClockOf(t);
             && ValidDate(date)
             && Pad(date.year, 4) == y && Pad(date.month, 2) == m && Pad(date.day, 2) == d
             && Pad(c.hour, 2) == h && Pad(c.minute, 2) == n && Pad(c.second, 2) == x && FormatFraction(t.nsec) == f
    ensures FormatLegacy(t) == y + ("-" + m + "-" + d + "T" + h + ":" + n + ":" + x) + f + "Z"
  {
    ShortYear(DateOf(DayOf(t)).year);
  }

  lemma SampleClock()
    ensures ClockOf(Time(1_103_778_367, 80_000_000)) == Clock(5, 6, 7)
  {
  }

  lemma SampleLetters()
    ensures "2004" + ("-" + "12" + "-" + "23" + "T" + "05" + ":" + "06" + ":" + "07") + ".08" + "Z" ==
            "2004-12-23T05:06:07.08Z"
  {
  }

  lemma EpochLetters()
    ensures "1970" + ("-" + "01" + "-" + "01" + "T" + "00" + ":" + "00" + ":" + "00") + "" + "Z" ==
            "1970-01-01T00:00:00Z"
  {
  }

  /** One instant in full: no two of its fields agree, so none can be exchanged. */
  lemma SampleText()
    ensures FormatLegacy(Time(1_103_778_367, 80_000_000)) == "2004-12-23T05:06:07.08Z"
  {
    SampleDate();
    SampleFraction();
    SampleDatePads();
    SampleClockPads();
    SampleClock();
    SampleLetters();
    Assembled(Time(1_103_778_367, 80_000_000), "2004", "12", "23", "05", "06", "07", ".08");
  }

  /** The epoch in full. */
  lemma EpochText()
    ensures FormatLegacy(Time(0, 0)) == "1970-01-01T00:00:00Z"
  {
    Anchors();
    EpochPads();
    assert ClockOf(Time(0, 0)) == Clock(0, 0, 0);
    EpochLetters();
    Assembled(Time(0, 0), "1970", "01", "01", "00", "00", "00", "");
  }

  /** The texts and numbers of both belong together. */
  lemma SampleNumbers()
    ensures LegacyToUnixNano("2004-12-23T05:06:07.08Z") == Ok(1_103_778_367_080_000_000)
    ensures LegacyToUnixNano("1970-01-01T00:00:00Z") == Ok(0)
  {
    SampleText();
    EpochText();
    WrittenNumber(Time(1_103_778_367, 80_000_000));
    WrittenNumber(Time(0, 0));
  }

  lemma WrittenNumber(t: Time)
    requires t.Valid() && MIN_INT64 < t.Count() <= MAX_INT64 && t != ZERO
    ensures LegacyToUnixNano(FormatLegacy(t)) == Ok(t.Count())
  {
    ToUnixNanoExact(t);
    ToFrom(t);
    NumberTextNumber(t.Count());
  }

  predicate Field(s: string, lo: int, hi: int) {
    AllDigits(s) && lo <= Value(s) <= hi
  }

  /** What is accepted: separators, digits in range, a day of that month, and a zone. */
  lemma ParseExact(s: string)
    ensures Parse(s).Ok? <==>
            && |s| >= 19 && s[4] == '-' && s[7] == '-' && s[10] == 'T' && s[13] == ':' && s[16] == ':'
            && Field(s[0..4], 0, 9999) && Field(s[5..7], 1, 12)
            && (var y, m := Value(s[0..4]), Value(s[5..7]);
                var leap := y % 4 == 0 && (y % 100 != 0 || y % 400 == 0);
                Field(s[8..10], 1, if m == 2 then (if leap then 29 else 28)
                                   else if m == 4 || m == 6 || m == 9 || m == 11 then 30 else 31))
            && Field(s[11..13], 0, 23) && Field(s[14..16], 0, 59) && Field(s[17..19], 0, 59)
            && ParseZone(ParseFraction(s[19..]).1).Some?
  {
  }
}
