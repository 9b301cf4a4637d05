/**
 * When a presigned URL expires: the signing time in the URL's `X-Amz-Date` plus the
 * lifetime in its `X-Amz-Expires`, sent to the browser as an ISO string and parsed
 * there for the countdown.
 */
module Expiry {
  import opened Wrappers
  import opened KeyOrder
  import opened Calendar

  // ---------------------------------------------------------------------
  // Digits
  // ---------------------------------------------------------------------

  predicate IsDigit(c: char) {
    '0' <= c <= '9'
  }

  function NumberOf(s: string): int {
    if s == [] then 0 else NumberOf(s[..|s| - 1]) * 10 + (s[|s| - 1] as int - 48)
  }

  function Digits(n: nat, width: nat): string {
    if width == 0 then "" else Digits(n / 10, width - 1) + [(48 + n % 10) as char]
  }

  function Power10(k: nat): nat {
    if k == 0 then 1 else 10 * Power10(k - 1)
  }

  lemma {:induction false} DigitsReadBack(n: nat, width: nat)
    requires n < Power10(width)
    ensures |Digits(n, width)| == width && NumberOf(Digits(n, width)) == n
    ensures forall i :: 0 <= i < width ==> IsDigit(Digits(n, width)[i])
  {
    if width > 0 {
      DigitsReadBack(n / 10, width - 1);
      assert Digits(n, width)[..width - 1] == Digits(n / 10, width - 1);
    }
  }

  predicate AllDigits(s: string) {
    forall i :: 0 <= i < |s| ==> IsDigit(s[i])
  }

  lemma {:induction false} NumberInRange(s: string)
    requires AllDigits(s)
    ensures 0 <= NumberOf(s) < Power10(|s|)
  {
    if s != [] {
      NumberInRange(s[..|s| - 1]);
    }
  }

  lemma {:induction false} DigitsOfNumber(s: string)
    requires AllDigits(s)
    ensures NumberOf(s) >= 0 && Digits(NumberOf(s), |s|) == s
  {
    NumberInRange(s);
    if s != [] {
      var front, last := s[..|s| - 1], s[|s| - 1];
      NumberInRange(front);
      DigitsOfNumber(front);
      assert NumberOf(s) / 10 == NumberOf(front);
      assert s == front + [last];
    }
  }

  // ---------------------------------------------------------------------
  // Date strings
  // ---------------------------------------------------------------------

  /** `d` in a shape stands for a digit, every other character for itself. */
  predicate Matches(s: string, shape: string) {
    |s| == |shape| && forall i :: 0 <= i < |s| ==> if shape[i] == 'd' then IsDigit(s[i]) else s[i] == shape[i]
  }

  /** The two-digit number at position `i`. */
  function Two(s: string, i: nat): int
    requires i + 2 <= |s|
  {
    NumberOf(s[i..i + 2])
  }

  const SECONDS_SHAPE := "-dd-ddTdd:dd:ddZ"
  const MILLIS_SHAPE := "-dd-ddTdd:dd:dd.dddZ"
  const AMZ_SHAPE := "ddddddddTddddddZ"

  /** What follows the year. */
  function FieldsAfter(year: int, s: string): Option<Civil> {
    if Matches(s, SECONDS_SHAPE) then
      Some(Civil(year, Two(s, 1), Two(s, 4), Two(s, 7), Two(s, 10), Two(s, 13), 0))
    else if Matches(s, MILLIS_SHAPE) then
      Some(Civil(year, Two(s, 1), Two(s, 4), Two(s, 7), Two(s, 10), Two(s, 13), NumberOf(s[16..19])))
    else None
  }

  /** Four digits, or a sign and six digits; there is no year minus zero. */
  function DateFields(s: string): Option<Civil> {
    if s != [] && (s[0] == '+' || s[0] == '-') then
      if |s| < 7 || !AllDigits(s[1..7]) || (s[0] == '-' && NumberOf(s[1..7]) == 0) then None
      else FieldsAfter(if s[0] == '-' then -NumberOf(s[1..7]) else NumberOf(s[1..7]), s[7..])
    else if |s| < 4 || !AllDigits(s[..4]) then None
    else FieldsAfter(NumberOf(s[..4]), s[4..])
  }

  /** Midnight may be written as the end of the day. */
  predicate AcceptsTime(c: Civil) {
    IsTime(c) || (c.hour == 24 && c.minute == 0 && c.second == 0 && c.ms == 0)
  }

  /**
   * `Date.parse` on these forms. Engines differ on a day that its month does not have,
   * such as 30 February: it is refused, or rolls over when `rolls` is true.
   */
  function DateParse(s: string, rolls: bool): Option<int> {
    match DateFields(s)
    case None => None
    case Some(c) =>
      if !(1 <= c.month <= 12) || !(1 <= c.day <= (if rolls then 31 else DaysIn(c.year, c.month))) || !AcceptsTime(c) then None
      else TimeClip(TimeOf(c))
  }

  function TimeClip(t: int): Option<int> {
    if -MAX_TIME <= t <= MAX_TIME then Some(t) else None
  }

  function YearText(y: int): string {
    if 0 <= y <= 9999 then Digits(y, 4)
    else if y < 0 then "-" + Digits(-y, 6)
    else "+" + Digits(y, 6)
  }

  function FieldsText(c: Civil): string
    requires IsCivil(c)
  {
    "-" + Digits(c.month, 2) + "-" + Digits(c.day, 2) + "T" + Digits(c.hour, 2) + ":" + Digits(c.minute, 2)
    + ":" + Digits(c.second, 2) + "." + Digits(c.ms, 3) + "Z"
  }

  function IsoText(t: int): string {
    if -MAX_TIME <= t <= MAX_TIME then ToIsoString(t) else "Invalid Date"
  }

  function ToIsoString(t: int): string
    requires -MAX_TIME <= t <= MAX_TIME
  {
    TimeOfCivilOf(t);
    YearText(CivilOf(t).year) + FieldsText(CivilOf(t))
  }

  /** Where the fields stand. */
  lemma PiecesStand(mo: string, d: string, h: string, mi: string, sec: string, ms: string)
    requires |mo| == |d| == |h| == |mi| == |sec| == 2 && |ms| == 3
    requires AllDigits(mo) && AllDigits(d) && AllDigits(h) && AllDigits(mi) && AllDigits(sec) && AllDigits(ms)
    ensures var s := "-" + mo + "-" + d + "T" + h + ":" + mi + ":" + sec + "." + ms + "Z";
            && Matches(s, MILLIS_SHAPE)
            && s[1..3] == mo && s[4..6] == d && s[7..9] == h && s[10..12] == mi && s[13..15] == sec && s[16..19] == ms
  {
  }

  lemma PiecesStandInSeconds(mo: string, d: string, h: string, mi: string, sec: string)
    requires |mo| == |d| == |h| == |mi| == |sec| == 2
    requires AllDigits(mo) && AllDigits(d) && AllDigits(h) && AllDigits(mi) && AllDigits(sec)
    ensures var s := "-" + mo + "-" + d + "T" + h + ":" + mi + ":" + sec + "Z";
            && Matches(s, SECONDS_SHAPE)
            && s[1..3] == mo && s[4..6] == d && s[7..9] == h && s[10..12] == mi && s[13..15] == sec
  {
  }

  lemma FieldsReadBack(c: Civil)
    requires IsCivil(c)
    ensures FieldsAfter(c.year, FieldsText(c)) == Some(c)
  {
    assert Power10(2) == 100 && Power10(3) == 1000 by {
      assert Power10(1) == 10;
    }
    DigitsReadBack(c.month, 2);
    DigitsReadBack(c.day, 2);
    DigitsReadBack(c.hour, 2);
    DigitsReadBack(c.minute, 2);
    DigitsReadBack(c.second, 2);
    DigitsReadBack(c.ms, 3);
    PiecesStand(Digits(c.month, 2), Digits(c.day, 2), Digits(c.hour, 2), Digits(c.minute, 2), Digits(c.second, 2), Digits(c.ms, 3));
  }

  lemma YearReadsBack(y: int, rest: string)
    requires -1_000_000 < y < 1_000_000
    ensures DateFields(YearText(y) + rest) == FieldsAfter(y, rest)
  {
    assert Power10(4) == 10_000 && Power10(6) == 1_000_000 by {
      assert Power10(2) == 100;
    }
    if 0 <= y <= 9999 {
      DigitsReadBack(y, 4);
      PlainYear(Digits(y, 4), rest);
    } else {
      var n := if y < 0 then -y else y;
      DigitsReadBack(n, 6);
      SignedYear(if y < 0 then '-' else '+', Digits(n, 6), rest);
    }
  }

  lemma PlainYear(year: string, rest: string)
    requires |year| == 4 && AllDigits(year)
    ensures DateFields(year + rest) == FieldsAfter(NumberOf(year), rest)
  {
    var s := year + rest;
    assert s[..4] == year && s[4..] == rest;
    assert IsDigit(s[0]);
  }

  lemma SignedYear(sign: char, year: string, rest: string)
    requires sign == '-' || sign == '+'
    requires |year| == 6 && AllDigits(year) && NumberOf(year) > 0
    ensures DateFields([sign] + year + rest)
         == FieldsAfter(if sign == '-' then -NumberOf(year) else NumberOf(year), rest)
  {
    var s := [sign] + year + rest;
    assert s[1..7] == year && s[7..] == rest;
  }

  /** Every date prints as a string that parses back to it. */
  lemma IsoRoundTrip(t: int, rolls: bool)
    requires -MAX_TIME <= t <= MAX_TIME
    ensures DateParse(ToIsoString(t), rolls) == Some(t)
  {
    var c := CivilOf(t);
    TimeOfCivilOf(t);
    YearReadsBack(c.year, FieldsText(c));
    FieldsReadBack(c);
  }

  // ---------------------------------------------------------------------
  // The signing time
  // ---------------------------------------------------------------------

  /** The basic form of a date, `YYYYMMDDTHHMMSSZ`, in the extended form. */
  function Extended(s: string): string
    requires |s| == 16
  {
    s[..4] + ("-" + s[4..6] + "-" + s[6..8] + "T" + s[9..11] + ":" + s[11..13] + ":" + s[13..15] + "Z")
  }

  function ParseAmzDate(s: string, rolls: bool): Option<int> {
    if Matches(s, AMZ_SHAPE) then DateParse(Extended(s), rolls) else None
  }

  function AmzFields(s: string): Civil
    requires |s| == 16
  {
    Civil(NumberOf(s[..4]), Two(s, 4), Two(s, 6), Two(s, 9), Two(s, 11), Two(s, 13), 0)
  }

  predicate IsAmzDate(s: string) {
    Matches(s, AMZ_SHAPE) && IsCivil(AmzFields(s))
  }

  lemma DigitsStand(s: string)
    requires Matches(s, AMZ_SHAPE)
    ensures AllDigits(s[..4]) && AllDigits(s[4..6]) && AllDigits(s[6..8])
    ensures AllDigits(s[9..11]) && AllDigits(s[11..13]) && AllDigits(s[13..15])
    ensures s[8] == 'T' && s[15] == 'Z'
  {
  }

  lemma ExtendedFields(s: string)
    requires Matches(s, AMZ_SHAPE)
    ensures DateFields(Extended(s)) == Some(AmzFields(s))
    ensures 0 <= AmzFields(s).year <= 9999
  {
    var rest := "-" + s[4..6] + "-" + s[6..8] + "T" + s[9..11] + ":" + s[11..13] + ":" + s[13..15] + "Z";
    DigitsStand(s);
    PlainYear(s[..4], rest);
    ExtendedRest(s, rest);
    NumberInRange(s[..4]);
    assert Power10(4) == 10_000 by {
      assert Power10(2) == 100;
    }
  }

  lemma ExtendedRest(s: string, rest: string)
    requires Matches(s, AMZ_SHAPE)
    requires rest == "-" + s[4..6] + "-" + s[6..8] + "T" + s[9..11] + ":" + s[11..13] + ":" + s[13..15] + "Z"
    ensures FieldsAfter(NumberOf(s[..4]), rest) == Some(AmzFields(s))
  {
    DigitsStand(s);
    PiecesStandInSeconds(s[4..6], s[6..8], s[9..11], s[11..13], s[13..15]);
  }

  lemma YearsOfFourDigitsFit(c: Civil)
    requires IsCivil(c) && 0 <= c.year <= 9999
    ensures -62_167_219_200_000 <= TimeOf(c) < 253_402_300_800_000
  {
    var start := Civil(0, 1, 1, 0, 0, 0, 0);
    var end := Civil(10_000, 1, 1, 0, 0, 0, 0);
    CalendarOrderIsTimeOrder(start, c);
    CalendarOrderIsTimeOrder(c, start);
    CalendarOrderIsTimeOrder(c, end);
  }

  /** Every date of the calendar is understood, by every engine alike. */
  lemma AmzDateParses(s: string, rolls: bool)
    requires IsAmzDate(s)
    ensures ParseAmzDate(s, rolls) == Some(TimeOf(AmzFields(s)))
    ensures -62_167_219_200_000 <= TimeOf(AmzFields(s)) < 253_402_300_800_000
  {
    ExtendedFields(s);
    YearsOfFourDigitsFit(AmzFields(s));
  }

  /** What is printed of a signing instant is the date as it was signed, field by field. */
  lemma PrintsAsSigned(s: string)
    requires IsAmzDate(s)
    ensures -MAX_TIME <= TimeOf(AmzFields(s)) <= MAX_TIME
    ensures ToIsoString(TimeOf(AmzFields(s)))
         == s[..4] + ("-" + s[4..6] + "-" + s[6..8] + "T" + s[9..11] + ":" + s[11..13] + ":" + s[13..15] + ".000Z")
  {
    var c := AmzFields(s);
    YearsOfFourDigitsFitSigned(s);
    CivilOfTimeOf(c);
    DigitsStand(s);
    DigitsOfNumber(s[..4]);
    FieldsAsSigned(s);
  }

  lemma YearsOfFourDigitsFitSigned(s: string)
    requires IsAmzDate(s)
    ensures 0 <= AmzFields(s).year <= 9999
    ensures -MAX_TIME <= TimeOf(AmzFields(s)) <= MAX_TIME
  {
    ExtendedFields(s);
    YearsOfFourDigitsFit(AmzFields(s));
  }

  lemma FieldsAsSigned(s: string)
    requires IsAmzDate(s)
    ensures FieldsText(AmzFields(s))
         == "-" + s[4..6] + "-" + s[6..8] + "T" + s[9..11] + ":" + s[11..13] + ":" + s[13..15] + ".000Z"
  {
    DigitsStand(s);
    DigitsOfNumber(s[4..6]);
    DigitsOfNumber(s[6..8]);
    DigitsOfNumber(s[9..11]);
    DigitsOfNumber(s[11..13]);
    DigitsOfNumber(s[13..15]);
    ZeroMillis("-" + s[4..6] + "-" + s[6..8] + "T" + s[9..11] + ":" + s[11..13] + ":" + s[13..15]);
  }

  lemma ZeroMillis(s: string)
    ensures s + "." + Digits(0, 3) + "Z" == s + ".000Z"
  {
    assert Digits(0, 3) == "000" by {
      assert Digits(0, 1) == "0" && Digits(0, 2) == "00";
    }
  }

  /** Fourteen digits with a `T` and a `Z` in their places. */
  predicate IsBasicForm(s: string) {
    && |s| == 16 && s[8] == 'T' && s[15] == 'Z'
    && forall i :: 0 <= i < 15 && i != 8 ==> '0' <= s[i] <= '9'
  }

  lemma BasicFormMatches(s: string)
    ensures IsBasicForm(s) <==> Matches(s, AMZ_SHAPE)
  {
    if Matches(s, AMZ_SHAPE) {
      forall i | 0 <= i < 15 && i != 8
        ensures '0' <= s[i] <= '9'
      {
        assert AMZ_SHAPE[i] == 'd';
      }
    }
    if IsBasicForm(s) {
      forall i | 0 <= i < 16
        ensures if AMZ_SHAPE[i] == 'd' then IsDigit(s[i]) else s[i] == AMZ_SHAPE[i]
      {
      }
    }
  }

  /**
   * Which strings are read at all: the basic form, with a month, a day of that month (or
   * up to 31 where the engine rolls over) and a time of day, or 24:00:00 for its end.
   */
  lemma AmzParsesExactly(s: string, rolls: bool)
    ensures ParseAmzDate(s, rolls).Some?
       <==> && IsBasicForm(s)
            && var c := AmzFields(s);
               && 1 <= c.month <= 12 && 1 <= c.day <= (if rolls then 31 else DaysIn(c.year, c.month))
               && ((c.hour < 24 && c.minute < 60 && c.second < 60) || (c.hour == 24 && c.minute == 0 && c.second == 0))
  {
    BasicFormMatches(s);
    if Matches(s, AMZ_SHAPE) {
      ExtendedFields(s);
      FieldsInRange(s);
      var c := AmzFields(s);
      if 1 <= c.month <= 12 && 1 <= c.day <= 31 && AcceptsTime(c) {
        LooseTimesFit(c);
      }
    }
  }

  lemma FieldsInRange(s: string)
    requires Matches(s, AMZ_SHAPE)
    ensures AmzFields(s).hour >= 0 && AmzFields(s).minute >= 0 && AmzFields(s).second >= 0
  {
    DigitsStand(s);
    NumberInRange(s[9..11]);
    NumberInRange(s[11..13]);
    NumberInRange(s[13..15]);
  }

  /** A day or an hour past its end does not leave the range of time values. */
  lemma LooseTimesFit(c: Civil)
    requires 0 <= c.year <= 9999 && 1 <= c.month <= 12 && 1 <= c.day <= 31
    requires 0 <= c.hour <= 24 && 0 <= c.minute < 60 && 0 <= c.second < 60 && 0 <= c.ms < 1000
    ensures -MAX_TIME <= TimeOf(c) <= MAX_TIME
  {
    YearsOfFourDigitsFit(Civil(c.year, c.month, 1, 0, 0, 0, 0));
  }

  // ---------------------------------------------------------------------
  // Signing times are ordered as their strings
  // ---------------------------------------------------------------------

  lemma {:induction false} LessSplits(a: string, b: string, n: nat)
    requires |a| == |b| && n <= |a| && Less(a, b)
    ensures Less(a[..n], b[..n]) || (a[..n] == b[..n] && Less(a[n..], b[n..]))
  {
    if n > 0 {
      assert a[..n][1..] == a[1..][..n - 1] && b[..n][1..] == b[1..][..n - 1];
      if a[0] == b[0] {
        LessSplits(a[1..], b[1..], n - 1);
        assert a[n..] == a[1..][n - 1..] && b[n..] == b[1..][n - 1..];
        assert a[..n] == [a[0]] + a[1..][..n - 1] && b[..n] == [b[0]] + b[1..][..n - 1];
      }
    } else {
      assert a[0..] == a && b[0..] == b;
    }
  }

  lemma {:induction false} LessIsSmaller(a: string, b: string)
    requires |a| == |b| && AllDigits(a) && AllDigits(b) && Less(a, b)
    ensures NumberOf(a) < NumberOf(b)
  {
    var n := |a| - 1;
    LessSplits(a, b, n);
    if Less(a[..n], b[..n]) {
      LessIsSmaller(a[..n], b[..n]);
    }
  }

  /** A number at the front decides, or else what follows it. */
  lemma FieldDecides(a: string, b: string, n: nat)
    requires |a| == |b| && n <= |a| && Less(a, b)
    requires AllDigits(a[..n]) && AllDigits(b[..n])
    ensures NumberOf(a[..n]) < NumberOf(b[..n]) || (NumberOf(a[..n]) == NumberOf(b[..n]) && Less(a[n..], b[n..]))
  {
    LessSplits(a, b, n);
    if Less(a[..n], b[..n]) {
      LessIsSmaller(a[..n], b[..n]);
    }
  }

  /** `FieldDecides` for the two digits at position `i`. */
  lemma TwoDecides(a: string, b: string, i: nat)
    requires |a| == |b| && i + 2 <= |a| && Less(a[i..], b[i..])
    requires AllDigits(a[i..i + 2]) && AllDigits(b[i..i + 2])
    ensures Two(a, i) < Two(b, i) || (Two(a, i) == Two(b, i) && Less(a[i + 2..], b[i + 2..]))
  {
    assert a[i..][..2] == a[i..i + 2] && b[i..][..2] == b[i..i + 2];
    assert a[i..][2..] == a[i + 2..] && b[i..][2..] == b[i + 2..];
    FieldDecides(a[i..], b[i..], 2);
  }

  lemma LessIsBefore(a: string, b: string)
    requires Matches(a, AMZ_SHAPE) && Matches(b, AMZ_SHAPE) && Less(a, b)
    ensures Before(AmzFields(a), AmzFields(b))
  {
    var p, q := AmzFields(a), AmzFields(b);
    DigitsStand(a);
    DigitsStand(b);
    FieldDecides(a, b, 4);
    if p.year == q.year {
      TwoDecides(a, b, 4);
      if p.month == q.month {
        TwoDecides(a, b, 6);
        if p.day == q.day {
          assert a[8..][1..] == a[9..] && b[8..][1..] == b[9..];
          TimeDecides(a, b);
        }
      }
    }
  }

  lemma TimeDecides(a: string, b: string)
    requires Matches(a, AMZ_SHAPE) && Matches(b, AMZ_SHAPE) && Less(a[9..], b[9..])
    ensures TimeBefore(AmzFields(a), AmzFields(b))
  {
    var p, q := AmzFields(a), AmzFields(b);
    DigitsStand(a);
    DigitsStand(b);
    TwoDecides(a, b, 9);
    if p.hour == q.hour {
      TwoDecides(a, b, 11);
      if p.minute == q.minute {
        TwoDecides(a, b, 13);
        assert a[15..] == "Z" && b[15..] == "Z";
      }
    }
  }

  /** Signing instants are ordered exactly as the strings that carry them, and equal only when those are. */
  lemma SigningOrder(a: string, b: string, rolls: bool)
    requires IsAmzDate(a) && IsAmzDate(b)
    ensures var s, t := ParseAmzDate(a, rolls), ParseAmzDate(b, rolls);
            && s.Some? && t.Some?
            && (Less(a, b) <==> s.value < t.value)
            && (a == b <==> s == t)
  {
    AmzDateParses(a, rolls);
    AmzDateParses(b, rolls);
    LessIsTotal(a, b);
    LessIsStrict(a);
    if Less(a, b) {
      LessIsBefore(a, b);
      TimesAscend(AmzFields(a), AmzFields(b));
    }
    if Less(b, a) {
      LessIsBefore(b, a);
      TimesAscend(AmzFields(b), AmzFields(a));
    }
  }

  // ---------------------------------------------------------------------
  // From the signed URL to the countdown
  // ---------------------------------------------------------------------

  /** The numeric value of `X-Amz-Expires`. */
  datatype Lifetime = NotFinite | Seconds(n: int)

  datatype SignedError = ProviderError | InvalidDate

  /** `expiresAt` is `None` for an invalid date. */
  datatype SignedExpiry = SignedExpiry(expiresAt: Option<int>, effectiveTtlSeconds: int)

  datatype TtlView = TtlView(
    expiresAt: string, requestedTtlSeconds: int, effectiveTtlSeconds: int, clamped: bool, maxTtlSeconds: int)

  function ReadSignedUrlExpiry(amzDate: Option<string>, expires: Option<Lifetime>, rolls: bool): Result<SignedExpiry, SignedError> {
    if amzDate.None? || expires.None? then Err(ProviderError)
    else ExpiryFrom(ParseAmzDate(amzDate.value, rolls), expires.value)
  }

  function ExpiryFrom(signedAt: Option<int>, lifetime: Lifetime): Result<SignedExpiry, SignedError> {
    if signedAt.None? || lifetime.NotFinite? then Err(ProviderError)
    else Ok(SignedExpiry(TimeClip(signedAt.value + lifetime.n * 1000), lifetime.n))
  }

  /** Printing an invalid date throws; `iso` prints a valid one. */
  function ViewOf(requested: int, maxTtl: int, read: Result<SignedExpiry, SignedError>, iso: int -> string): Result<TtlView, SignedError> {
    match read
    case Err(e) => Err(e)
    case Ok(SignedExpiry(expiresAt, effective)) =>
      if expiresAt.None? then Err(InvalidDate)
      else Ok(TtlView(iso(expiresAt.value), requested, effective, effective < requested, maxTtl))
  }

  function BuildTtlView(requested: int, maxTtl: int, amzDate: Option<string>, expires: Option<Lifetime>, rolls: bool):
    Result<TtlView, SignedError>
  {
    ViewOf(requested, maxTtl, ReadSignedUrlExpiry(amzDate, expires, rolls), IsoText)
  }

  function SecondsLeft(expiry: int, now: int): real {
    if expiry > now then (expiry - now) as real / 1000.0 else 0.0
  }

  lemma SecondsLeftOf(seconds: nat, signedAt: int, now: int)
    ensures SecondsLeft(signedAt + seconds * 1000, signedAt) == seconds as real
    ensures now <= signedAt + seconds * 1000 ==>
              SecondsLeft(signedAt + seconds * 1000, now) * 1000.0 == (signedAt + seconds * 1000 - now) as real
    ensures SecondsLeft(signedAt + seconds * 1000, now) == 0.0 <==> now >= signedAt + seconds * 1000
  {
    assert (seconds * 1000) as real == seconds as real * 1000.0;
  }

  /** What the countdown shows. */
  function Remaining(expiresAt: string, now: int, rolls: bool): Option<real> {
    match DateParse(expiresAt, rolls)
    case None => None
    case Some(expiry) => Some(SecondsLeft(expiry, now))
  }

  /** What a view says besides its text: the two lifetimes and the limit in their places. */
  predicate SaysOf(v: TtlView, requested: int, maxTtl: int, ttl: int) {
    && v.effectiveTtlSeconds == ttl && v.requestedTtlSeconds == requested && v.maxTtlSeconds == maxTtl
    && (v.clamped <==> ttl < requested)
  }

  lemma ViewMeans(requested: int, maxTtl: int, signedAt: Option<int>, lifetime: Lifetime, iso: int -> string)
    ensures var view := ViewOf(requested, maxTtl, ExpiryFrom(signedAt, lifetime), iso);
            var readable := signedAt.Some? && lifetime.Seconds?;
            && (!readable <==> view == Err(ProviderError))
            && (readable ==>
                  var t := signedAt.value + lifetime.n * 1000;
                  && (view.Ok? <==> -8_640_000_000_000_000 <= t <= 8_640_000_000_000_000)
                  && (view.Err? ==> view.error == InvalidDate)
                  && (view.Ok? ==> view.value.expiresAt == iso(t) && SaysOf(view.value, requested, maxTtl, lifetime.n)))
  {
  }

  lemma IsoTextReadsBack(t: int, rolls: bool)
    requires -MAX_TIME <= t <= MAX_TIME
    ensures DateParse(IsoText(t), rolls) == Some(t)
  {
    IsoRoundTrip(t, rolls);
  }

  lemma ViewOfSigned(requested: int, maxTtl: int, signedAt: Option<int>, lifetime: Lifetime, browserRolls: bool)
    ensures var view := ViewOf(requested, maxTtl, ExpiryFrom(signedAt, lifetime), IsoText);
            var readable := signedAt.Some? && lifetime.Seconds?;
            && (!readable <==> view == Err(ProviderError))
            && (readable ==>
                  var t := signedAt.value + lifetime.n * 1000;
                  && (view.Ok? <==> -8_640_000_000_000_000 <= t <= 8_640_000_000_000_000)
                  && (view.Err? ==> view.error == InvalidDate)
                  && (view.Ok? ==> DateParse(view.value.expiresAt, browserRolls) == Some(t)
                                   && SaysOf(view.value, requested, maxTtl, lifetime.n)))
  {
    ViewMeans(requested, maxTtl, signedAt, lifetime, IsoText);
    if signedAt.Some? && lifetime.Seconds? {
      var t := signedAt.value + lifetime.n * 1000;
      if -MAX_TIME <= t <= MAX_TIME {
        IsoTextReadsBack(t, browserRolls);
      }
    }
  }

  /**
   * The view exists exactly when both parameters are there and readable and the expiry
   * is a date at all. Then the browser reads back exactly the signing instant plus the
   * lifetime, whatever the two engines do with impossible dates.
   */
  lemma ExpiryChain(requested: int, maxTtl: int, amzDate: Option<string>, expires: Option<Lifetime>, rolls: bool, browserRolls: bool)
    ensures var view := BuildTtlView(requested, maxTtl, amzDate, expires, rolls);
            var readable := && amzDate.Some? && ParseAmzDate(amzDate.value, rolls).Some?
                            && expires.Some? && expires.value.Seconds?;
            && (!readable <==> view == Err(ProviderError))
            && (readable ==>
                  var t := ParseAmzDate(amzDate.value, rolls).value + expires.value.n * 1000;
                  && (view.Ok? <==> -8_640_000_000_000_000 <= t <= 8_640_000_000_000_000)
                  && (view.Err? ==> view.error == InvalidDate)
                  && (view.Ok? ==> DateParse(view.value.expiresAt, browserRolls) == Some(t)
                                   && SaysOf(view.value, requested, maxTtl, expires.value.n)))
  {
    if amzDate.Some? && expires.Some? {
      ViewOfSigned(requested, maxTtl, ParseAmzDate(amzDate.value, rolls), expires.value, browserRolls);
    }
  }

  lemma FourDigitYear(t: int)
    requires -62_167_219_200_000 <= t < 253_402_300_800_000
    ensures 0 <= CivilOf(t).year <= 9999
  {
    TimeOfCivilOf(t);
    CalendarOrderIsTimeOrder(CivilOf(t), Civil(10_000, 1, 1, 0, 0, 0, 0));
    CalendarOrderIsTimeOrder(CivilOf(t), Civil(0, 1, 1, 0, 0, 0, 0));
  }

  lemma SignedViewReadsBack(requested: int, maxTtl: int, amzDate: string, ttl: nat, rolls: bool, signedAt: int, t: int)
    requires ParseAmzDate(amzDate, rolls) == Some(signedAt)
    requires t == signedAt + ttl * 1000 && -MAX_TIME <= t <= MAX_TIME
    ensures var view := BuildTtlView(requested, maxTtl, Some(amzDate), Some(Seconds(ttl)), rolls);
            view.Ok? && DateParse(view.value.expiresAt, rolls) == Some(t)
  {
    var read := ExpiryFrom(Some(signedAt), Seconds(ttl));
    assert ReadSignedUrlExpiry(Some(amzDate), Some(Seconds(ttl)), rolls) == read;
    ViewOfSigned(requested, maxTtl, Some(signedAt), Seconds(ttl), rolls);
  }

  /** A URL signed with a calendar date always yields a view while it expires within year 9999. */
  lemma ExpiryWithinFourDigitYears(requested: int, maxTtl: int, amzDate: string, ttl: nat, rolls: bool)
    requires IsAmzDate(amzDate)
    requires TimeOf(AmzFields(amzDate)) + ttl * 1000 < 253_402_300_800_000
    ensures var view := BuildTtlView(requested, maxTtl, Some(amzDate), Some(Seconds(ttl)), rolls);
            && view.Ok?
            && DateParse(view.value.expiresAt, rolls) == Some(TimeOf(AmzFields(amzDate)) + ttl * 1000)
            && 0 <= CivilOf(TimeOf(AmzFields(amzDate)) + ttl * 1000).year <= 9999
  {
    var t := TimeOf(AmzFields(amzDate)) + ttl * 1000;
    AmzDateParses(amzDate, rolls);
    SignedViewReadsBack(requested, maxTtl, amzDate, ttl, rolls, TimeOf(AmzFields(amzDate)), t);
    FourDigitYear(t);
  }

  lemma RemainingOfIso(t: int, now: int, rolls: bool)
    requires -MAX_TIME <= t <= MAX_TIME
    ensures Remaining(ToIsoString(t), now, rolls) == Some(SecondsLeft(t, now))
  {
    IsoRoundTrip(t, rolls);
  }

  /** At the signing instant the countdown shows the whole lifetime; it has run out from the expiry on, and not before. */
  lemma CountdownRuns(signedAt: int, ttl: nat, expiry: int, now: int, rolls: bool)
    requires expiry == signedAt + ttl * 1000 && -MAX_TIME <= expiry <= MAX_TIME
    ensures Remaining(ToIsoString(expiry), signedAt, rolls) == Some(ttl as real)
    ensures Remaining(ToIsoString(expiry), now, rolls) == Some(0.0) <==> now >= expiry
    ensures now <= expiry ==>
              exists left :: Remaining(ToIsoString(expiry), now, rolls) == Some(left) && left * 1000.0 == (expiry - now) as real
  {
    SecondsLeftOf(ttl, signedAt, now);
    assert SecondsLeft(expiry, signedAt) == ttl as real && (SecondsLeft(expiry, now) == 0.0 <==> now >= expiry);
    assert now <= expiry ==> SecondsLeft(expiry, now) * 1000.0 == (expiry - now) as real;
    RemainingOfIso(expiry, signedAt, rolls);
    RemainingOfIso(expiry, now, rolls);
  }
}
