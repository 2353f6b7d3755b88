/** ISO-8601 timestamps as text: the parser, a formatter for the RFC 3339
    section 5.6 shape, and GPS time straight from text. */
module Timestamps {
  import opened Wrappers
  import opened Decimal
  import opened Texts
  import opened Calendar

  datatype IsoError = MissingT | BadDate | BadYear | BadMonth | BadDay | BadTime | BadHour | BadMinute | BadSecond

  // `parse::<u32>`.
  function ParseU32(s: string): Option<nat> {
    match ParseU64(s)
    case Some(n) => if n < 0x1_0000_0000 then Some(n) else None
    case None => None
  }

  // `parse::<i64>`.
  function ParseI64(s: string): Option<int> {
    if |s| > 1 && s[0] == '-' then
      if !AllDigits(s[1..]) then None
      else
        var magnitude: int := Value(s[1..]);
        if magnitude <= 0x8000_0000_0000_0000 then Some(-magnitude) else None
    else
      match ParseU64(s)
      case Some(n) => if n < 0x8000_0000_0000_0000 then Some(n) else None
      case None => None
  }

  // `parse::<f64>` on plain decimals: digits, or digits around one point.
  function ParseDecimal(s: string): Option<real> {
    match SplitOnce(s, '.')
    case None => if s != [] && AllDigits(s) then Some(Value(s) as real) else None
    case Some(p) =>
      if p.0 + p.1 != [] && AllDigits(p.0) && AllDigits(p.1)
      then Some(Value(p.0) as real + Value(p.1) as real / Pow10(|p.1|) as real)
      else None
  }

  function ParseField(s: string, error: IsoError): Result<nat, IsoError> {
    match ParseU32(s)
    case Some(n) => Ok(n)
    case None => Err(error)
  }

  function ParseDate(s: string): Result<Date, IsoError> {
    var bits := Split(s, '-');
    if |bits| != 3 then Err(BadDate)
    else
      match ParseI64(bits[0])
      case None => Err(BadYear)
      case Some(year) =>
        var month :- ParseField(bits[1], BadMonth);
        var day :- ParseField(bits[2], BadDay);
        Ok(Date(year, month, day))
  }

  function ParseTime(date: Date, s: string): Result<Timestamp, IsoError> {
    var bits := Split(s, ':');
    if |bits| != 3 then Err(BadTime)
    else
      var hour :- ParseField(bits[0], BadHour);
      var minute :- ParseField(bits[1], BadMinute);
      match ParseDecimal(bits[2])
      case None => Err(BadSecond)
      case Some(second) => Ok(Timestamp(date, hour, minute, second))
  }

  // The time part is looked at only when the date part is well formed.
  function ParseTimestamp(text: string): Result<Timestamp, IsoError> {
    match SplitOnce(TrimEndMatches(Trim(text), 'Z'), 'T')
    case None => Err(MissingT)
    case Some(p) =>
      var date :- ParseDate(p.0);
      ParseTime(date, p.1)
  }

  /** `iso8601_utc_to_gps`.  A month of 0 would make the program's month index
      underflow, so callers must not pass one. */
  function Iso8601UtcToGps(text: string): Result<real, IsoError>
    requires ParseTimestamp(text).Ok? ==> ParseTimestamp(text).value.date.month >= 1
  {
    var t :- ParseTimestamp(text);
    Ok(GpsSeconds(t))
  }

  // ---------------------------------------------------------- formatting

  function Two(n: nat): (s: string)
    ensures |s| >= 2 && AllDigits(s)
  {
    PadLeft(Digits(n), 2, '0')
  }

  // Seconds with three decimals, or whole seconds without any.
  function FormatSeconds(millis: nat, decimals: bool): string {
    if decimals then Two(millis / 1000) + "." + PadLeft(Digits(millis % 1000), 3, '0') else Two(millis / 1000)
  }

  function FormatDate(d: Date): string
    requires IsDate(d)
  {
    PadLeft(Digits(d.year), 4, '0') + "-" + Two(d.month) + "-" + Two(d.day)
  }

  function FormatTime(hour: nat, minute: nat, millis: nat, decimals: bool): string {
    Two(hour) + ":" + Two(minute) + ":" + FormatSeconds(millis, decimals)
  }

  function FormatTimestamp(d: Date, hour: nat, minute: nat, millis: nat, decimals: bool, zulu: bool): string
    requires IsDate(d)
  {
    FormatDate(d) + "T" + FormatTime(hour, minute, millis, decimals) + if zulu then "Z" else ""
  }

  predicate Digitlike(s: string) {
    forall i :: 0 <= i < |s| ==> IsDigit(s[i]) || s[i] == '-' || s[i] == ':' || s[i] == '.'
  }

  lemma TwoReads(n: nat)
    requires n < 0x1_0000_0000
    ensures ParseU32(Two(n)) == Some(n) && Value(Two(n)) == n
    ensures '-' !in Two(n) && ':' !in Two(n) && '.' !in Two(n)
  {
    ParseOfZeroPadded(n, 2);
    ValueOfZeroPadded(n, 2);
  }

  lemma DateReads(d: Date)
    requires IsDate(d) && d.year < 0x8000_0000_0000_0000
    ensures ParseDate(FormatDate(d)) == Ok(d) && Digitlike(FormatDate(d))
  {
    hide Two, ParseU32, Split, Value;
    var year := PadLeft(Digits(d.year), 4, '0');
    ParseOfZeroPadded(d.year, 4);
    ValueOfZeroPadded(d.year, 4);
    TwoReads(d.month);
    TwoReads(d.day);
    assert IsDigit(year[0]) && '-' !in year;
    SplitInThree(year, Two(d.month), Two(d.day), '-');
    assert FormatDate(d) == year + ['-'] + Two(d.month) + ['-'] + Two(d.day);
  }

  lemma DigitsOnly(s: string)
    requires AllDigits(s)
    ensures '.' !in s && ':' !in s && '-' !in s && Digitlike(s)
  {
  }

  lemma PointBetween(a: string, b: string)
    requires Digitlike(a) && Digitlike(b) && ':' !in a && ':' !in b
    ensures Digitlike(a + ['.'] + b) && ':' !in a + ['.'] + b
  {
  }

  lemma DecimalReads(whole: string, part: string)
    requires AllDigits(whole) && AllDigits(part) && part != []
    ensures ParseDecimal(whole + ['.'] + part)
         == Some(Value(whole) as real + Value(part) as real / Pow10(|part|) as real)
    ensures ':' !in whole + ['.'] + part && Digitlike(whole + ['.'] + part)
  {
    hide Value, Pow10, AllDigits, Digitlike, SplitOnce;
    DigitsOnly(whole);
    DigitsOnly(part);
    PointBetween(whole, part);
    SplitOnceAt(whole, '.', part);
    assert |whole + part| > 0;
  }

  lemma WholeReads(whole: string)
    requires AllDigits(whole) && whole != []
    ensures ParseDecimal(whole) == Some(Value(whole) as real)
    ensures ':' !in whole && Digitlike(whole)
  {
    hide Value, AllDigits, Digitlike, SplitOnce;
    DigitsOnly(whole);
  }

  lemma MillisSum(millis: nat)
    ensures (millis / 1000) as real + (millis % 1000) as real / 1000.0 == millis as real / 1000.0
  {
    var q, m := millis / 1000, millis % 1000;
    assert millis == 1000 * q + m;
    assert millis as real == 1000.0 * q as real + m as real;
  }

  lemma ThreeDecimals(n: nat)
    requires n < 1000
    ensures var part := PadLeft(Digits(n), 3, '0'); AllDigits(part) && |part| == 3 && Value(part) == n
    ensures Pow10(3) == 1000
  {
    assert Pow10(3) == 1000;
    ValueOfZeroPadded(n, 3);
    DigitsLength(n, 3);
  }

  lemma SecondsRead(millis: nat, decimals: bool)
    requires millis < 60000 && (!decimals ==> millis % 1000 == 0)
    ensures
      var s := FormatSeconds(millis, decimals);
      && ParseDecimal(s) == Some(millis as real / 1000.0)
      && ':' !in s && Digitlike(s) && s != [] && IsDigit(s[|s| - 1])
  {
    hide Two, Value, ParseDecimal, Digitlike, Digits, PadLeft;
    var whole, part := Two(millis / 1000), PadLeft(Digits(millis % 1000), 3, '0');
    TwoReads(millis / 1000);
    MillisSum(millis);
    if decimals {
      ThreeDecimals(millis % 1000);
      DecimalReads(whole, part);
      assert FormatSeconds(millis, decimals) == whole + ['.'] + part;
      assert (whole + ['.'] + part)[|whole| + 3] == part[2];
    } else {
      WholeReads(whole);
    }
  }

  lemma TimeReads(d: Date, hour: nat, minute: nat, millis: nat, decimals: bool)
    requires hour < 24 && minute < 60 && millis < 60000 && (!decimals ==> millis % 1000 == 0)
    ensures
      var s := FormatTime(hour, minute, millis, decimals);
      && ParseTime(d, s) == Ok(Timestamp(d, hour, minute, millis as real / 1000.0))
      && Digitlike(s) && s != [] && IsDigit(s[|s| - 1])
  {
    hide Two, ParseU32, ParseDecimal, FormatSeconds, Split;
    TwoReads(hour);
    TwoReads(minute);
    SecondsRead(millis, decimals);
    SplitInThree(Two(hour), Two(minute), FormatSeconds(millis, decimals), ':');
    var seconds := FormatSeconds(millis, decimals);
    assert FormatTime(hour, minute, millis, decimals) == Two(hour) + [':'] + Two(minute) + [':'] + seconds;
  }

  lemma ZuluStripped(s: string, zulu: bool)
    requires s != [] && IsDigit(s[0]) && IsDigit(s[|s| - 1])
    ensures TrimEndMatches(Trim(s + if zulu then "Z" else ""), 'Z') == s
  {
    var t := s + if zulu then "Z" else "";
    NothingToTrim(t);
    if zulu { assert t[..|t| - 1] == s; } else { assert t == s; }
  }

  /** Every valid millisecond timestamp, in each of the accepted spellings (with
      or without decimals, with or without Z), parses back to itself. */
  lemma ParseInvertsFormat(d: Date, hour: nat, minute: nat, millis: nat, decimals: bool, zulu: bool)
    requires IsDate(d) && d.year < 0x8000_0000_0000_0000 && hour < 24 && minute < 60 && millis < 60000
    requires !decimals ==> millis % 1000 == 0
    ensures ParseTimestamp(FormatTimestamp(d, hour, minute, millis, decimals, zulu)) == Ok(Timestamp(d, hour, minute,
        millis as real / 1000.0))
  {
    hide FormatDate, FormatTime, ParseDate, ParseTime, Trim, TrimEndMatches, SplitOnce;
    var date, time := FormatDate(d), FormatTime(hour, minute, millis, decimals);
    DateReads(d);
    TimeReads(d, hour, minute, millis, decimals);
    DateStartsWithDigit(d);
    assert 'T' !in date by { assert forall i :: 0 <= i < |date| ==> date[i] != 'T'; }
    SplitOnceAt(date, 'T', time);
    var body := date + ['T'] + time;
    assert body[|body| - 1] == time[|time| - 1] && body[0] == date[0];
    ZuluStripped(body, zulu);
    assert FormatTimestamp(d, hour, minute, millis, decimals, zulu) == body + if zulu then "Z" else "";
  }

  lemma DateStartsWithDigit(d: Date)
    requires IsDate(d)
    ensures FormatDate(d) != [] && IsDigit(FormatDate(d)[0])
  {
    assert FormatDate(d)[0] == PadLeft(Digits(d.year), 4, '0')[0];
  }

  /** From text to GPS time to the alert's Unix milliseconds: exact for every
      valid millisecond timestamp from 2017-01-01T00:00:17 on, and only those. */
  lemma TextToAlertIff(d: Date, hour: nat, minute: nat, millis: nat, zulu: bool)
    requires IsDate(d) && d.year < 0x8000_0000_0000_0000 && hour < 24 && minute < 60 && millis < 60000
    ensures
      var t := Timestamp(d, hour, minute, millis as real / 1000.0);
      var text := FormatTimestamp(d, hour, minute, millis, true, zulu);
      && ParseTimestamp(text) == Ok(t)
      && var gps := Iso8601UtcToGps(text);
      && gps.Ok?
      && (UnixMillisOfGps(gps.value) == UnixMillis(t, millis) <==> UtcSeconds(t) >= 1167264017.0)
  {
    hide ParseTimestamp, FormatTimestamp, UnixMillisOfGps, UnixMillis, GpsSeconds, UtcSeconds;
    ParseInvertsFormat(d, hour, minute, millis, true, zulu);
    AlertInvertsIff(Timestamp(d, hour, minute, millis as real / 1000.0), millis);
  }

  // --------------------------------------------- which texts are accepted

  const U32_LIMIT: nat := 0x1_0000_0000
  const I64_LIMIT: nat := 0x8000_0000_0000_0000

  // A numeral for n, which lies below the limit.
  ghost predicate IsUnsigned(s: string, n: int, limit: nat) {
    0 <= n < limit && exists digits: string :: IsNumeralText(s, digits, n)
  }

  // Digits, or digits around one point, not both sides empty.
  ghost predicate IsPlainDecimal(s: string, x: real) {
    || (s != "" && AllDigits(s) && x == Value(s) as real)
    || (exists whole: string, part: string :: IsPointed(s, whole, part, x))
  }

  predicate IsPointed(s: string, whole: string, part: string, x: real) {
    && s == whole + "." + part && whole + part != "" && AllDigits(whole) && AllDigits(part)
    && x == Value(whole) as real + Value(part) as real / Pow10(|part|) as real
  }

  ghost predicate IsDateText(s: string, d: Date) {
    exists year: string, month: string, day: string ::
      && s == year + "-" + month + "-" + day
      && IsUnsigned(year, d.year, I64_LIMIT) && IsUnsigned(month, d.month, U32_LIMIT)
      && IsUnsigned(day, d.day, U32_LIMIT)
  }

  ghost predicate IsTimeText(s: string, t: Timestamp) {
    exists hour: string, minute: string, second: string ::
      && s == hour + ":" + minute + ":" + second
      && IsUnsigned(hour, t.hour, U32_LIMIT) && IsUnsigned(minute, t.minute, U32_LIMIT)
      && IsPlainDecimal(second, t.second)
  }

  // Blanks around, any number of Z after the time.
  ghost predicate IsTimestampText(s: string, t: Timestamp) {
    exists before: string, date: string, time: string, zulus: string, after: string ::
      && s == before + (date + "T" + time + zulus) + after
      && AllWhite(before) && AllWhite(after) && AllAre(zulus, 'Z')
      && IsDateText(date, t.date) && IsTimeText(time, t)
  }

  lemma UnsignedIs32(s: string, n: int)
    ensures IsUnsigned(s, n, U32_LIMIT) <==> n >= 0 && ParseU32(s) == Some(n)
  {
    hide ParseU64, IsNumeralText;
    if n >= 0 { ParsesIff(s, n); }
  }

  lemma UnsignedIs64(s: string, n: int)
    requires '-' !in s
    ensures IsUnsigned(s, n, I64_LIMIT) <==> ParseI64(s) == Some(n)
  {
    hide ParseU64, IsNumeralText, Value;
    if n >= 0 { ParsesIff(s, n); }
  }

  // A numeral is made of digits and perhaps a plus sign in front.
  lemma UnsignedShape(s: string, n: int, limit: nat)
    requires IsUnsigned(s, n, limit)
    ensures s != "" && !IsWhite(s[0]) && IsDigit(s[|s| - 1])
    ensures '-' !in s && ':' !in s && 'T' !in s && 'Z' !in s
  {
    var digits: string :| IsNumeralText(s, digits, n);
    assert IsDigit(digits[0]) && IsDigit(digits[|digits| - 1]);
    if s == "+" + digits { assert s[|s| - 1] == digits[|digits| - 1]; }
  }

  lemma DecimalIff(s: string, x: real)
    ensures IsPlainDecimal(s, x) <==> ParseDecimal(s) == Some(x)
  {
    hide Value, Pow10, SplitOnce;
    if SplitOnce(s, '.').Some? {
      SplitOnceSplits(s, '.');
      var p := SplitOnce(s, '.').value;
      assert !AllDigits(s) by { assert s[|p.0|] == '.'; }
    }
    forall whole: string, part: string | IsPointed(s, whole, part, x)
      ensures SplitOnce(s, '.') == Some((whole, part))
    {
      DigitsOnly(whole);
      SplitOnceAt(whole, '.', part);
      assert s == whole + ['.'] + part;
    }
    if ParseDecimal(s) == Some(x) && SplitOnce(s, '.').Some? {
      var p := SplitOnce(s, '.').value;
      assert IsPointed(s, p.0, p.1, x);
    }
  }

  lemma DecimalShape(s: string, x: real)
    requires IsPlainDecimal(s, x)
    ensures s != "" && !IsWhite(s[|s| - 1]) && s[|s| - 1] != 'Z' && ':' !in s
  {
    hide Value, Pow10;
    if s != "" && AllDigits(s) && x == Value(s) as real {
      assert IsDigit(s[|s| - 1]);
    } else {
      var whole: string, part: string :| IsPointed(s, whole, part, x);
      assert s == whole + ['.'] + part;
      if part != "" { assert s[|s| - 1] == part[|part| - 1] && IsDigit(part[|part| - 1]); }
    }
  }

  lemma DateIff(s: string, d: Date)
    ensures IsDateText(s, d) <==> ParseDate(s) == Ok(d) && d.month >= 0 && d.day >= 0
  {
    hide IsUnsigned, ParseI64, ParseU32, Split;
    if ParseDate(s) == Ok(d) {
      var bits := Split(s, '-');
      ThreePartsSplit(s, '-');
      UnsignedIs64(bits[0], d.year);
      UnsignedIs32(bits[1], d.month);
      UnsignedIs32(bits[2], d.day);
      assert s == bits[0] + "-" + bits[1] + "-" + bits[2];
    }
    if IsDateText(s, d) {
      var year: string, month: string, day: string :|
        && s == year + "-" + month + "-" + day
        && IsUnsigned(year, d.year, I64_LIMIT) && IsUnsigned(month, d.month, U32_LIMIT)
        && IsUnsigned(day, d.day, U32_LIMIT);
      DateOfParts(s, year, month, day, d);
    }
  }

  lemma DateOfParts(s: string, year: string, month: string, day: string, d: Date)
    requires s == year + "-" + month + "-" + day
    requires IsUnsigned(year, d.year, I64_LIMIT) && IsUnsigned(month, d.month, U32_LIMIT)
    requires IsUnsigned(day, d.day, U32_LIMIT)
    ensures ParseDate(s) == Ok(d) && d.month >= 0 && d.day >= 0
  {
    hide IsUnsigned, ParseI64, ParseU32, Split;
    UnsignedShape(year, d.year, I64_LIMIT);
    UnsignedShape(month, d.month, U32_LIMIT);
    UnsignedShape(day, d.day, U32_LIMIT);
    UnsignedIs64(year, d.year);
    UnsignedIs32(month, d.month);
    UnsignedIs32(day, d.day);
    SplitInThree(year, month, day, '-');
    assert s == year + ['-'] + month + ['-'] + day;
  }

  lemma TimeIff(s: string, t: Timestamp)
    ensures IsTimeText(s, t) <==> ParseTime(t.date, s) == Ok(t) && t.hour >= 0 && t.minute >= 0
  {
    hide IsUnsigned, IsPlainDecimal, ParseDecimal, ParseU32, Split;
    if ParseTime(t.date, s) == Ok(t) {
      var bits := Split(s, ':');
      ThreePartsSplit(s, ':');
      UnsignedIs32(bits[0], t.hour);
      UnsignedIs32(bits[1], t.minute);
      DecimalIff(bits[2], t.second);
      assert s == bits[0] + ":" + bits[1] + ":" + bits[2];
    }
    if IsTimeText(s, t) {
      var hour: string, minute: string, second: string :|
        && s == hour + ":" + minute + ":" + second
        && IsUnsigned(hour, t.hour, U32_LIMIT) && IsUnsigned(minute, t.minute, U32_LIMIT)
        && IsPlainDecimal(second, t.second);
      TimeOfParts(s, hour, minute, second, t);
    }
  }

  lemma TimeOfParts(s: string, hour: string, minute: string, second: string, t: Timestamp)
    requires s == hour + ":" + minute + ":" + second
    requires IsUnsigned(hour, t.hour, U32_LIMIT) && IsUnsigned(minute, t.minute, U32_LIMIT)
    requires IsPlainDecimal(second, t.second)
    ensures ParseTime(t.date, s) == Ok(t) && t.hour >= 0 && t.minute >= 0
    ensures s != "" && !IsWhite(s[|s| - 1]) && s[|s| - 1] != 'Z'
  {
    hide IsUnsigned, IsPlainDecimal, ParseDecimal, ParseU32, Split;
    UnsignedShape(hour, t.hour, U32_LIMIT);
    UnsignedShape(minute, t.minute, U32_LIMIT);
    DecimalShape(second, t.second);
    UnsignedIs32(hour, t.hour);
    UnsignedIs32(minute, t.minute);
    DecimalIff(second, t.second);
    SplitInThree(hour, minute, second, ':');
    assert s == hour + [':'] + minute + [':'] + second;
    assert s[|s| - 1] == second[|second| - 1];
  }

  // A date text starts with no blank and holds no T.
  lemma DateShape(s: string, d: Date)
    requires IsDateText(s, d)
    ensures s != "" && !IsWhite(s[0]) && 'T' !in s
  {
    hide IsUnsigned;
    var year: string, month: string, day: string :|
      && s == year + "-" + month + "-" + day
      && IsUnsigned(year, d.year, I64_LIMIT) && IsUnsigned(month, d.month, U32_LIMIT)
      && IsUnsigned(day, d.day, U32_LIMIT);
    UnsignedShape(year, d.year, I64_LIMIT);
    UnsignedShape(month, d.month, U32_LIMIT);
    UnsignedShape(day, d.day, U32_LIMIT);
    assert s[0] == year[0];
  }

  lemma TimeShape(s: string, t: Timestamp)
    requires IsTimeText(s, t)
    ensures s != "" && !IsWhite(s[|s| - 1]) && s[|s| - 1] != 'Z'
  {
    hide IsUnsigned, IsPlainDecimal;
    var hour: string, minute: string, second: string :|
      && s == hour + ":" + minute + ":" + second
      && IsUnsigned(hour, t.hour, U32_LIMIT) && IsUnsigned(minute, t.minute, U32_LIMIT)
      && IsPlainDecimal(second, t.second);
    TimeOfParts(s, hour, minute, second, t);
  }

  lemma AcceptedParts(s: string, t: Timestamp)
    requires IsTimestampText(s, t)
    ensures ParseTimestamp(s) == Ok(t)
  {
    hide Trim, TrimEndMatches, SplitOnce, ParseDate, ParseTime, IsDateText, IsTimeText;
    var before: string, date: string, time: string, zulus: string, after: string :|
      && s == before + (date + "T" + time + zulus) + after
      && AllWhite(before) && AllWhite(after) && AllAre(zulus, 'Z')
      && IsDateText(date, t.date) && IsTimeText(time, t);
    DateShape(date, t.date);
    TimeShape(time, t);
    DateIff(date, t.date);
    TimeIff(time, t);
    var core := date + ['T'] + time;
    var middle := core + zulus;
    assert date + "T" + time + zulus == middle;
    assert middle[0] == date[0] && core[|core| - 1] == time[|time| - 1];
    assert !IsWhite(middle[|middle| - 1]) by {
      if zulus != "" { assert middle[|middle| - 1] == zulus[|zulus| - 1]; }
    }
    TrimIs(before, middle, after);
    TrimMatchesIs(core, 'Z', zulus);
    SplitOnceAt(date, 'T', time);
  }

  lemma PartsOfAccepted(s: string, t: Timestamp)
    requires ParseTimestamp(s) == Ok(t)
    ensures IsTimestampText(s, t)
  {
    hide Trim, TrimEndMatches, SplitOnce, ParseDate, ParseTime, IsDateText, IsTimeText;
    var before, after := TrimSplits(s);
    var zulus := TrimMatchesSplits(Trim(s), 'Z');
    var core := TrimEndMatches(Trim(s), 'Z');
    SplitOnceSplits(core, 'T');
    var p := SplitOnce(core, 'T').value;
    var d := ParseDate(p.0).value;
    ParsedFields(p.0, d, p.1, t);
    DateIff(p.0, d);
    TimeIff(p.1, t);
    assert s == before + (p.0 + "T" + p.1 + zulus) + after;
  }

  lemma ParsedFields(date: string, d: Date, time: string, t: Timestamp)
    requires ParseDate(date) == Ok(d) && ParseTime(d, time) == Ok(t)
    ensures t.date == d && d.month >= 0 && d.day >= 0 && t.hour >= 0 && t.minute >= 0
  {
    hide ParseI64, ParseU32, ParseDecimal, Split;
  }

  /** Exactly the texts of this shape are accepted, whatever the numbers: blanks, a
      date and a time joined by T, any number of Z, blanks. */
  lemma AcceptedIff(s: string, t: Timestamp)
    ensures ParseTimestamp(s) == Ok(t) <==> IsTimestampText(s, t)
  {
    hide ParseTimestamp, IsTimestampText;
    if ParseTimestamp(s) == Ok(t) { PartsOfAccepted(s, t); }
    if IsTimestampText(s, t) { AcceptedParts(s, t); }
  }
}
