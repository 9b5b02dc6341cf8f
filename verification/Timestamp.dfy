/** Timestamps: checked text, packed into one unsigned 64-bit number with a mixed
    radix (month, day, zone, year, second of the day, microsecond), and printed
    back. */
module Timestamp {
  import opened Config
  import opened Arithmetic

  const U64_LIMIT := 0x1_0000_0000_0000_0000

  const TIMESTAMP_MAX := 11231999986399999999

  // ---------------------------------------------------------------- decimal text

  predicate IsDigit(c: char) { '0' <= c <= '9' }

  predicate AllDigits(s: string) {
    forall i :: 0 <= i < |s| ==> IsDigit(s[i])
  }

  function Number(s: string): nat
    requires AllDigits(s)
  {
    if s == "" then 0 else 10 * Number(s[..|s| - 1]) + (s[|s| - 1] as int - '0' as int)
  }

  function Digits(n: nat, width: nat): (s: string)
    ensures |s| == width && AllDigits(s)
  {
    if width == 0 then "" else Digits(n / 10, width - 1) + [('0' as int + n % 10) as char]
  }

  function Pow10(n: nat): nat {
    if n == 0 then 1 else 10 * Pow10(n - 1)
  }

  lemma {:induction false} NumberOfDigits(n: nat, width: nat)
    requires n < Pow10(width)
    ensures Number(Digits(n, width)) == n
  {
    if width > 0 {
      NumberOfDigits(n / 10, width - 1);
      assert Digits(n, width)[..width - 1] == Digits(n / 10, width - 1);
    }
  }

  lemma {:induction false} DigitsOfNumber(s: string)
    requires AllDigits(s)
    ensures Number(s) < Pow10(|s|) && Digits(Number(s), |s|) == s
  {
    if s != "" {
      DigitsOfNumber(s[..|s| - 1]);
      assert s == s[..|s| - 1] + [s[|s| - 1]];
    }
  }

  // ---------------------------------------------------------------- fields and their text

  datatype Fields = Fields(year: nat, month: nat, day: nat, hour: nat, minute: nat, second: nat, micro: nat, tz: int)

  function DateText(f: Fields): (s: string)
    ensures |s| == 10
  {
    Digits(f.year, 4) + "-" + Digits(f.month, 2) + "-" + Digits(f.day, 2)
  }

  function TimeText(f: Fields): (s: string)
    ensures |s| == 8
  {
    Digits(f.hour, 2) + ":" + Digits(f.minute, 2) + ":" + Digits(f.second, 2)
  }

  function ZoneText(tz: int): (s: string)
    ensures |s| == 3
  {
    [if tz >= 0 then '+' else '-'] + Digits(if tz >= 0 then tz else -tz, 2)
  }

  function Text(f: Fields): (s: string)
    ensures |s| == 29
  {
    DateText(f) + " " + TimeText(f) + "." + Digits(f.micro, 6) + ZoneText(f.tz)
  }

  predicate DigitPlace(i: nat) {
    i !in {4, 7, 10, 13, 16, 19, 26}
  }

  predicate Separated(s: string)
    requires |s| == 29
  {
    && s[10] == ' ' && s[4] == '-' && s[7] == '-' && s[13] == ':' && s[16] == ':' && s[19] == '.'
    && (s[26] == '+' || s[26] == '-')
  }

  predicate WellFormed(s: string) {
    |s| == 29 && Separated(s) && forall i :: 0 <= i < 29 && DigitPlace(i) ==> IsDigit(s[i])
  }

  function Read(s: string): Fields
    requires WellFormed(s)
  {
    var zone: int := Number(s[27..29]);
    Fields(Number(s[0..4]), Number(s[5..7]), Number(s[8..10]), Number(s[11..13]), Number(s[14..16]),
           Number(s[17..19]), Number(s[20..26]), if s[26] == '+' then zone else -zone)
  }

  predicate IsLeap(year: nat) {
    (year % 4 == 0 && year % 100 != 0) || year % 400 == 0
  }

  function DaysIn(year: nat, month: nat): nat
    requires 1 <= month <= 12
  {
    [31, if IsLeap(year) then 29 else 28, 31, 30, 31, 30, 31, 31, 30, 31, 30, 31][month - 1]
  }

  predicate InRange(f: Fields) {
    && f.year <= 9999 && 1 <= f.month <= 12 && 1 <= f.day <= DaysIn(f.year, f.month)
    && f.hour <= 23 && f.minute <= 59 && f.second <= 59 && f.micro <= 999999
  }

  // ---------------------------------------------------------------- packing

  /** The zone as an unsigned 32-bit number. */
  function ZoneCode(tz: int): nat { (tz + 12) % U32_LIMIT }

  function DayCode(f: Fields): nat { (f.month * 32 + f.day) * 27 + ZoneCode(f.tz) }

  function SecondOfDay(f: Fields): nat { f.hour * 3600 + f.minute * 60 + f.second }

  /** The packed number, before it is cut to 64 bits. */
  function Exact(f: Fields): nat {
    ((DayCode(f) * 10000 + f.year) * 100000 + SecondOfDay(f)) * 1000000 + f.micro
  }

  function Pack(f: Fields): nat { Exact(f) % U64_LIMIT }

  function Unpack(packed: nat): Fields {
    var (seconds, micro) := Split(packed, 1000000);
    var (years, second) := Split(seconds, 100000);
    var (zones, year) := Split(years, 10000);
    var (days, zone) := Split(zones, 27);
    var (month, day) := Split(days, 32);
    var (minutes, sec) := Split(second, 60);
    var (hours, minute) := Split(minutes, 60);
    Fields(year, month, day, hours % 24, minute, sec, micro, zone - 12)
  }

  /** The value of a `TIMESTAMP`: the constructor takes a signed number, so the
      packed number 2^63 reads as NULL. */
  datatype Value = Null | Packed(bits: nat)

  function Stored(packed: nat): Value {
    if packed == U64_LIMIT / 2 then Null else Packed(packed)
  }

  datatype Error = FormatError | OutOfRange

  /** The text with the microseconds filled in. */
  function Full(s: string): string {
    if |s| == 22 then s[..19] + ".000000" + s[19..] else s
  }

  function Parse(s: string): Result<Fields, Error> {
    if !WellFormed(Full(s)) then Failure(FormatError)
    else if !InRange(Read(Full(s))) then Failure(OutOfRange)
    else if Read(Full(s)).tz > 26 then Failure(FormatError)
    else Success(Read(Full(s)))
  }

  function Cast(s: string): Result<Value, Error> {
    match Parse(s)
    case Failure(e) => Failure(e)
    case Success(f) => Success(Stored(Pack(f)))
  }

  function Print(v: Value): string {
    if v.Null? then "timestamp_null" else Text(Unpack(v.bits))
  }

  /** How an accepted text is printed: with microseconds, and zone "-00" as "+00". */
  function Normalised(s: string): string {
    var full := Full(s);
    if |full| == 29 && full[26..] == "-00" then full[..26] + "+00" else full
  }

  // ---------------------------------------------------------------- text round trips

  lemma DateSplit(s: string)
    requires WellFormed(s)
    ensures s[..10] == s[0..4] + "-" + s[5..7] + "-" + s[8..10]
    ensures s[11..19] == s[11..13] + ":" + s[14..16] + ":" + s[17..19]
    ensures s == s[..10] + " " + s[11..19] + "." + s[20..26] + ([s[26]] + s[27..29])
  {
  }

  lemma ZeroText(zone: string)
    requires |zone| == 2 && AllDigits(zone)
    ensures Digits(0, 2) == "00" && (zone == "00" ==> Number(zone) == 0)
  {
    assert Digits(0, 1) == "0";
    if zone == "00" {
      assert zone[..1] == "0" && "0"[..0] == "";
    }
  }

  lemma ZoneTextOf(sign: char, zone: string)
    requires (sign == '+' || sign == '-') && |zone| == 2 && AllDigits(zone)
    ensures Number(zone) <= 99
    ensures ZoneText(if sign == '+' then Number(zone) else -(Number(zone) as int)) ==
            if sign == '-' && zone == "00" then "+00" else [sign] + zone
  {
    hide Number, Digits;
    DigitsOfNumber(zone);
    assert Pow10(2) == 100;
    ZeroText(zone);
  }

  lemma ZoneOfRead(s: string)
    requires WellFormed(s)
    ensures ZoneText(Read(s).tz) == if s[26..] == "-00" then "+00" else s[26..29]
    ensures -99 <= Read(s).tz <= 99
  {
    hide ZoneText, Number;
    assert AllDigits(s[27..29]);
    ZoneTextOf(s[26], s[27..29]);
    assert s[26..29] == s[26..] == [s[26]] + s[27..29];
    assert s[26..] == "-00" <==> s[26] == '-' && s[27..29] == "00" by {
      if s[26..] == "-00" {
        assert s[27..29] == s[26..][1..];
      }
    }
  }

  /** Reading a well-formed text and printing the fields normalises it. */
  lemma TextOfRead(s: string)
    requires WellFormed(s)
    ensures Text(Read(s)) == if s[26..] == "-00" then s[..26] + "+00" else s
  {
    hide Number, Digits, ZoneText, Separated;
    DateSplit(s);
    ZoneOfRead(s);
    DigitsOfNumber(s[0..4]);
    DigitsOfNumber(s[5..7]);
    DigitsOfNumber(s[8..10]);
    DigitsOfNumber(s[11..13]);
    DigitsOfNumber(s[14..16]);
    DigitsOfNumber(s[17..19]);
    DigitsOfNumber(s[20..26]);
    assert s[..26] == s[..10] + " " + s[11..19] + "." + s[20..26];
    assert s == s[..26] + s[26..29];
  }

  lemma TextParts(f: Fields)
    requires -99 <= f.tz <= 99
    ensures WellFormed(Text(f))
    ensures var s := Text(f);
            && s[0..4] == Digits(f.year, 4) && s[5..7] == Digits(f.month, 2) && s[8..10] == Digits(f.day, 2)
            && s[11..13] == Digits(f.hour, 2) && s[14..16] == Digits(f.minute, 2) && s[17..19] == Digits(f.second, 2)
            && s[20..26] == Digits(f.micro, 6)
            && s[26] == (if f.tz >= 0 then '+' else '-')
            && s[27..29] == Digits(if f.tz >= 0 then f.tz else -f.tz, 2)
  {
    hide Digits;
  }

  /** Fields that fit the digits of the text, whether or not the date exists. */
  predicate Printable(f: Fields) {
    && f.year < 10000 && f.month < 100 && f.day < 100 && f.hour < 100 && f.minute < 100 && f.second < 100
    && f.micro < 1000000 && -99 <= f.tz <= 99
  }

  lemma RangePrintable(f: Fields)
    requires InRange(f) && -99 <= f.tz <= 99
    ensures Printable(f)
  {
  }

  /** Printed fields are read back. */
  lemma ReadOfPrintable(f: Fields)
    requires Printable(f)
    ensures WellFormed(Text(f)) && Read(Text(f)) == f
  {
    hide Number, Digits, Text, WellFormed;
    TextParts(f);
    assert Pow10(2) == 100 && Pow10(4) == 10000 && Pow10(6) == 1000000;
    NumberOfDigits(f.year, 4);
    NumberOfDigits(f.month, 2);
    NumberOfDigits(f.day, 2);
    NumberOfDigits(f.hour, 2);
    NumberOfDigits(f.minute, 2);
    NumberOfDigits(f.second, 2);
    NumberOfDigits(f.micro, 6);
    NumberOfDigits(if f.tz >= 0 then f.tz else -f.tz, 2);
  }

  lemma ReadOfText(f: Fields)
    requires InRange(f) && -99 <= f.tz <= 99
    ensures WellFormed(Text(f)) && Read(Text(f)) == f
  {
    hide InRange, Text, Read, WellFormed;
    RangePrintable(f);
    ReadOfPrintable(f);
  }

  /** What is accepted is, in normal form, the text of a date that exists in a
      zone up to +26. */
  lemma AcceptedIsText(s: string)
    requires Cast(s).Success?
    ensures Normalised(s) == Text(Parse(s).value)
    ensures InRange(Parse(s).value) && -99 <= Parse(s).value.tz <= 26
  {
    hide Text, Read, InRange, Separated, Pack;
    TextOfRead(Full(s));
    ZoneOfRead(Full(s));
  }

  /** The text of a date that exists is accepted exactly in zones up to +26. */
  lemma CastAccepts(f: Fields)
    requires InRange(f) && -99 <= f.tz <= 99
    ensures Cast(Text(f)) == if f.tz <= 26 then Success(Stored(Pack(f))) else Failure(FormatError)
  {
    ReadOfText(f);
    hide Text, Read, InRange, WellFormed, Pack;
  }

  // ---------------------------------------------------------------- packing round trips

  predicate InZone(f: Fields) { -12 <= f.tz <= 14 }

  /** One digit below its radix keeps the number below the next bound. */
  lemma DigitBound(n: nat, top: nat, radix: nat, digit: nat)
    requires n <= top && digit < radix
    ensures n * radix + digit <= top * radix + (radix - 1)
  {
  }

  lemma DayCodeBound(f: Fields)
    requires InRange(f) && InZone(f)
    ensures DayCode(f) <= 11231 && f.year <= 9999 && SecondOfDay(f) <= 86399 && f.micro <= 999999
  {
  }

  /** Within the zones -12 to +14 nothing overflows: the packed number is at most
      the largest timestamp. */
  lemma PackFits(f: Fields)
    requires InRange(f) && InZone(f)
    ensures Pack(f) == Exact(f) <= TIMESTAMP_MAX
  {
    hide InRange, InZone, DayCode, SecondOfDay;
    DayCodeBound(f);
    DigitBound(DayCode(f), 11231, 10000, f.year);
    var years := DayCode(f) * 10000 + f.year;
    assert years <= 112319999;
    var seconds := years * 100000 + SecondOfDay(f);
    assert seconds <= 112319999 * 100000 + 86399 == 11231999986399;
    DigitBound(seconds, 11231999986399, 1000000, f.micro);
    assert Exact(f) == seconds * 1000000 + f.micro;
  }

  /** What each field weighs in the packed number: the month most, the microsecond
      least. A zone before -12 counts as a huge one, and everything is cut to 64
      bits. */
  lemma PackedDigits(f: Fields)
    requires -99 <= f.tz <= 99
    ensures var zone := if f.tz >= -12 then f.tz + 12 else f.tz + 12 + 0x1_0000_0000;
            Pack(f) ==
              ( f.month * 864_000_000_000_000_000
              + f.day * 27_000_000_000_000_000
              + zone * 1_000_000_000_000_000
              + f.year * 100_000_000_000
              + f.hour * 3_600_000_000
              + f.minute * 60_000_000
              + f.second * 1_000_000
              + f.micro) % 0x1_0000_0000_0000_0000
  {
  }

  lemma InRangeBounds(f: Fields)
    requires InRange(f)
    ensures f.micro < 1000000 && f.year < 10000 && f.day < 32 && SecondOfDay(f) < 100000
    ensures f.hour < 24 && f.minute < 60 && f.second < 60
  {
  }

  /** Packing loses nothing in those zones. */
  lemma UnpackOfPack(f: Fields)
    requires InRange(f) && InZone(f)
    ensures Unpack(Pack(f)) == f
  {
    hide InRange, Split, Pack;
    PackFits(f);
    InRangeBounds(f);
    SplitOfSum((DayCode(f) * 10000 + f.year) * 100000 + SecondOfDay(f), 1000000, f.micro);
    SplitOfSum(DayCode(f) * 10000 + f.year, 100000, SecondOfDay(f));
    SplitOfSum(DayCode(f), 10000, f.year);
    SplitOfSum(f.month * 32 + f.day, 27, f.tz + 12);
    SplitOfSum(f.month, 32, f.day);
    SplitOfSum(f.hour * 60 + f.minute, 60, f.second);
    SplitOfSum(f.hour, 60, f.minute);
  }

  lemma PackIsInjective(f: Fields, g: Fields)
    requires InRange(f) && InZone(f) && InRange(g) && InZone(g)
    ensures Pack(f) == Pack(g) ==> f == g
  {
    UnpackOfPack(f);
    UnpackOfPack(g);
  }

  // ---------------------------------------------------------------- the round trip

  /** The one date whose packed number is 2^63: 3720-10-21 10:14:14.775808+04. */
  function LostFields(): Fields { Fields(3720, 10, 21, 10, 14, 14, 775808, 4) }

  lemma LostIsMinimum()
    ensures InRange(LostFields()) && InZone(LostFields()) && Pack(LostFields()) == U64_LIMIT / 2
  {
  }

  /** Fields with the same text have the same zone. */
  lemma SameZone(f: Fields, g: Fields)
    requires -99 <= f.tz <= 99 && -99 <= g.tz <= 99 && Text(f) == Text(g)
    ensures f.tz == g.tz
  {
    hide Number, Digits, Text, WellFormed;
    TextParts(f);
    TextParts(g);
    assert Pow10(2) == 100;
    NumberOfDigits(if f.tz >= 0 then f.tz else -f.tz, 2);
    NumberOfDigits(if g.tz >= 0 then g.tz else -g.tz, 2);
  }

  /** An accepted text is printed back in normal form exactly if its zone is
      between -12 and +14 and it is not the one date that packs to 2^63. */
  lemma RoundTripIff(s: string)
    requires Cast(s).Success?
    ensures Print(Cast(s).value) == Normalised(s) <==>
            InZone(Parse(s).value) && Normalised(s) != Text(LostFields())
  {
    hide Text, Read, InRange, Separated, Pack, Unpack;
    var f := Parse(s).value;
    AcceptedIsText(s);
    LostIsMinimum();
    if InZone(f) {
      UnpackOfPack(f);
      PackIsInjective(f, LostFields());
      if Text(f) == Text(LostFields()) {
        ReadOfText(f);
        ReadOfText(LostFields());
      }
    } else if Cast(s).value.Packed? {
      var g := Unpack(Pack(f));
      UnpackZone(Pack(f));
      if Text(g) == Text(f) {
        SameZone(f, g);
      }
    }
  }

  lemma UnpackZone(packed: nat)
    ensures InZone(Unpack(packed))
  {
  }

  // ---------------------------------------------------------------- every text

  /** The text without microseconds. */
  function ShortText(f: Fields): (s: string)
    ensures |s| == 22
  {
    DateText(f) + " " + TimeText(f) + ZoneText(f.tz)
  }

  /** The texts of these fields: microseconds may be left out if they are zero, and
      zone zero may have either sign. */
  predicate IsTextOf(s: string, f: Fields) {
    || s == Text(f) || (f.tz == 0 && s == Text(f)[26 := '-'])
    || (f.micro == 0 && (s == ShortText(f) || (f.tz == 0 && s == ShortText(f)[19 := '-'])))
  }

  lemma ZeroMicros()
    ensures Digits(0, 6) == "000000"
  {
    assert Digits(0, 1) == "0";
    assert Digits(0, 2) == "00";
    assert Digits(0, 3) == "000";
    assert Digits(0, 4) == "0000";
    assert Digits(0, 5) == "00000";
  }

  /** The short text filled in is the long one, and only such texts are short. */
  lemma FullOfShort(f: Fields)
    requires f.micro == 0
    ensures Full(ShortText(f)) == Text(f)
    ensures Full(ShortText(f)[19 := '-']) == Text(f)[26 := '-']
  {
    ZeroMicros();
    hide Digits;
    var front, zone := DateText(f) + " " + TimeText(f), ZoneText(f.tz);
    assert ShortText(f) == front + zone && ShortText(f)[19 := '-'] == front + zone[0 := '-'];
    assert Text(f) == front + ".000000" + zone;
  }

  /** Zone "-00" is read as zone zero. */
  lemma ReadOfMinusZero(f: Fields)
    requires Printable(f) && f.tz == 0
    ensures WellFormed(Text(f)[26 := '-']) && Read(Text(f)[26 := '-']) == f
  {
    hide Number, Digits, Text;
    ReadOfPrintable(f);
    TextParts(f);
    var s, t := Text(f), Text(f)[26 := '-'];
    assert t[0..4] == s[0..4] && t[5..7] == s[5..7] && t[8..10] == s[8..10] && t[11..13] == s[11..13];
    assert t[14..16] == s[14..16] && t[17..19] == s[17..19] && t[20..26] == s[20..26] && t[27..29] == s[27..29];
  }

  lemma ReadOfForm(s: string, f: Fields)
    requires Printable(f) && IsTextOf(s, f)
    ensures WellFormed(Full(s)) && Read(Full(s)) == f
  {
    hide Text, ShortText, Read, WellFormed;
    ReadOfPrintable(f);
    if f.tz == 0 {
      ReadOfMinusZero(f);
    }
    if f.micro == 0 {
      FullOfShort(f);
    }
  }

  /** Leap days of the Gregorian calendar in the years 1 to `year`. */
  function LeapDays(year: nat): int { year / 4 - year / 100 + year / 400 }

  /** Days from the first of March to the first of the month that comes `k` months
      later. */
  function DaysSinceMarch(k: nat): nat { (153 * k + 2) / 5 }

  /** The length of a month by calendar arithmetic. Year 0 is a leap year. */
  function MonthLength(year: nat, month: nat): int {
    if month == 2 then 28 + (if year == 0 then 1 else LeapDays(year) - LeapDays(year - 1))
    else DaysSinceMarch((month + 9) % 12 + 1) - DaysSinceMarch((month + 9) % 12)
  }

  /** The date and time of day exist in the Gregorian calendar. */
  predicate DateExists(f: Fields) {
    && f.month in {1, 2, 3, 4, 5, 6, 7, 8, 9, 10, 11, 12}
    && 0 < f.day <= MonthLength(f.year, f.month)
    && f.hour < 24 && f.minute < 60 && f.second < 60
  }

  /** A year brings a leap day exactly if the range check takes it for a leap year. */
  lemma LeapDay(year: nat)
    requires year > 0
    ensures LeapDays(year) - LeapDays(year - 1) == if IsLeap(year) then 1 else 0
  {
    Multiples(year, 4);
    Multiples(year, 100);
    Multiples(year, 400);
  }

  lemma Multiples(year: nat, m: nat)
    requires year > 0 && m > 1
    ensures year / m - (year - 1) / m == if year % m == 0 then 1 else 0
  {
    var q, r := year / m, year % m;
    if r == 0 {
      assert year - 1 == (q - 1) * m + (m - 1);
      SplitOfSum(q - 1, m, m - 1);
    } else {
      assert year - 1 == q * m + (r - 1);
      SplitOfSum(q, m, r - 1);
    }
  }

  lemma MonthLengths(year: nat, month: nat)
    requires 1 <= month <= 12
    ensures MonthLength(year, month) == DaysIn(year, month)
  {
    if month == 2 {
      if year > 0 {
        LeapDay(year);
      }
      hide LeapDays, DaysSinceMarch;
    } else {
      hide LeapDays, IsLeap;
    }
  }

  /** The range check is the calendar. */
  lemma InRangeIsCalendar(f: Fields)
    requires Printable(f)
    ensures InRange(f) <==> DateExists(f)
  {
    hide MonthLength, DaysIn;
    if 1 <= f.month <= 12 {
      MonthLengths(f.year, f.month);
    }
    assert f.month in {1, 2, 3, 4, 5, 6, 7, 8, 9, 10, 11, 12} <==> 1 <= f.month <= 12;
  }

  /** What a text is cast to, for every text of some fields: dates that do not exist
      are out of range, zones beyond +26 a format error, and all others are packed. */
  lemma CastOfForm(s: string, f: Fields)
    requires Printable(f) && IsTextOf(s, f)
    ensures Cast(s) == if !DateExists(f) then Failure(OutOfRange)
                       else if f.tz > 26 then Failure(FormatError)
                       else Success(Stored(Pack(f)))
  {
    hide Text, ShortText, Read, WellFormed, InRange, DateExists, Pack, IsTextOf, Full;
    InRangeIsCalendar(f);
    ReadOfForm(s, f);
  }

  lemma ReadIsPrintable(s: string)
    requires WellFormed(s)
    ensures Printable(Read(s))
  {
    hide Number, Digits, ZoneText, Separated;
    ZoneOfRead(s);
    assert Pow10(2) == 100 && Pow10(4) == 10000 && Pow10(6) == 1000000;
    DigitsOfNumber(s[0..4]);
    DigitsOfNumber(s[5..7]);
    DigitsOfNumber(s[8..10]);
    DigitsOfNumber(s[11..13]);
    DigitsOfNumber(s[14..16]);
    DigitsOfNumber(s[17..19]);
    DigitsOfNumber(s[20..26]);
  }

  /** A text that reads well is a text of what is read. */
  lemma FormOfRead(s: string)
    requires WellFormed(Full(s))
    ensures IsTextOf(s, Read(Full(s)))
  {
    var t, f := Full(s), Read(Full(s));
    FullIsForm(t);
    if |s| == 22 {
      ShortIsForm(s);
    }
  }

  lemma FullIsForm(t: string)
    requires WellFormed(t)
    ensures t == Text(Read(t)) || (Read(t).tz == 0 && t == Text(Read(t))[26 := '-'])
  {
    TextOfRead(t);
    hide Text;
    if t[26..] == "-00" {
      DigitsOfNumber(t[27..29]);
      assert t[27..29] == t[26..][1..] == "00";
      ZeroText(t[27..29]);
      hide Number;
      assert t[26] == t[26..][0] == '-';
      assert t == (t[..26] + "+00")[26 := '-'];
    }
  }

  lemma ShortIsForm(s: string)
    requires |s| == 22 && WellFormed(Full(s))
    ensures IsTextOf(s, Read(Full(s)))
  {
    hide Text, ShortText, Read, WellFormed;
    var t, f := Full(s), Read(Full(s));
    FullIsForm(t);
    MicroOfShort(s);
    FullOfShort(f);
    FullIsInjective(s, ShortText(f));
    FullIsInjective(s, ShortText(f)[19 := '-']);
  }

  lemma MicroOfShort(s: string)
    requires |s| == 22 && WellFormed(Full(s))
    ensures Read(Full(s)).micro == 0
  {
    ZeroMicros();
    assert Full(s)[20..26] == "000000";
    NumberOfDigits(0, 6);
  }

  lemma FullIsInjective(s: string, t: string)
    requires |s| == |t| == 22
    ensures Full(s) == Full(t) ==> s == t
  {
    if Full(s) == Full(t) {
      assert s[..19] == Full(s)[..19] == t[..19];
      assert s[19..] == Full(s)[26..] == t[19..];
      assert s == s[..19] + s[19..];
    }
  }

  /** Everything that is not a text of some fields is a format error. */
  lemma CastOfOther(s: string)
    requires forall f :: Printable(f) ==> !IsTextOf(s, f)
    ensures Cast(s) == Failure(FormatError)
  {
    hide IsTextOf, Printable, Full, WellFormed, Read;
    if WellFormed(Full(s)) {
      ReadIsPrintable(Full(s));
      FormOfRead(s);
    }
  }

  /** Every text of an existing date in the zones -12 to +14 is printed with
      microseconds and zone zero as "+00", but for the one lost date. */
  lemma PrintOfForm(s: string, f: Fields)
    requires Printable(f) && DateExists(f) && InZone(f) && IsTextOf(s, f)
    ensures Cast(s).Success?
    ensures Print(Cast(s).value) == if f == LostFields() then "timestamp_null" else Text(f)
  {
    hide Text, InRange, DateExists, Pack, Unpack, IsTextOf, Printable;
    InRangeIsCalendar(f);
    CastOfForm(s, f);
    hide Cast;
    LostIsMinimum();
    UnpackOfPack(f);
    PackIsInjective(f, LostFields());
  }

  // ---------------------------------------------------------------- step by step

  lemma WrapMultiple(k: nat, n: nat)
    ensures (k * U64_LIMIT + n) % U64_LIMIT == n % U64_LIMIT
  {
    SplitOfSum(k + n / U64_LIMIT, U64_LIMIT, n % U64_LIMIT);
  }

  /** Wrapping after each step or once at the end is the same. */
  lemma WrapStep(a: nat, radix: nat, digit: nat)
    ensures ((a % U64_LIMIT) * radix % U64_LIMIT + digit) % U64_LIMIT == (a * radix + digit) % U64_LIMIT
  {
    var q, r := a / U64_LIMIT, a % U64_LIMIT;
    var p := r * radix / U64_LIMIT;
    assert a * radix == (q * radix) * U64_LIMIT + r * radix by {
      assert a == q * U64_LIMIT + r;
    }
    WrapMultiple(q * radix + p, r * radix % U64_LIMIT + digit);
  }

  /** One more digit of the packed number, in 64-bit arithmetic. */
  method Push(res: nat, radix: nat, digit: nat, ghost exact: nat) returns (r: nat)
    requires res == exact % U64_LIMIT
    ensures r == (exact * radix + digit) % U64_LIMIT
  {
    WrapStep(exact, radix, digit);
    r := res * radix % U64_LIMIT;
    r := (r + digit) % U64_LIMIT;
  }

  /** `cast_as_timestamp` on a text: character checks in a loop, then packing in
      64-bit steps. */
  method CastAsTimestamp(text: string) returns (r: Result<Value, Error>)
    ensures r == Cast(text)
  {
    hide InRange, Exact;
    var s := text;
    if |s| == 22 {
      s := s[..19] + ".000000" + s[19..];
    }
    if |s| != 29 || !Separated(s) {
      return Failure(FormatError);
    }
    for i := 0 to 29
      invariant forall j :: 0 <= j < i && DigitPlace(j) ==> IsDigit(s[j])
    {
      if DigitPlace(i) && !IsDigit(s[i]) {
        return Failure(FormatError);
      }
    }
    var f := Read(s);
    if !InRange(f) {
      return Failure(OutOfRange);
    }
    if f.tz > 26 {
      return Failure(FormatError);
    }
    var res := PackSteps(f);
    r := Success(Stored(res));
  }

  method PackSteps(f: Fields) returns (res: nat)
    requires InRange(f)
    ensures res == Pack(f)
  {
    hide InRange;
    MonthFits(f);
    res := Push(f.month, 32, f.day, f.month);
    res := Push(res, 27, ZoneCode(f.tz), f.month * 32 + f.day);
    res := Push(res, 10000, f.year, DayCode(f));
    res := Push(res, 100000, SecondOfDay(f), DayCode(f) * 10000 + f.year);
    res := Push(res, 1000000, f.micro, (DayCode(f) * 10000 + f.year) * 100000 + SecondOfDay(f));
  }

  lemma MonthFits(f: Fields)
    requires InRange(f)
    ensures f.month == f.month % U64_LIMIT
  {
  }

  lemma PrintsBack(v: Value)
    ensures forall text :: Cast(text) == Success(v) && InZone(Parse(text).value) ==>
              Print(v) == if Normalised(text) == Text(LostFields()) then "timestamp_null" else Normalised(text)
  {
    forall text | Cast(text) == Success(v) && InZone(Parse(text).value)
      ensures Print(v) == if Normalised(text) == Text(LostFields()) then "timestamp_null" else Normalised(text)
    {
      RoundTripIff(text);
      if Normalised(text) == Text(LostFields()) {
        LostIsNull(text);
      }
    }
  }

  /** The lost date reads as NULL. */
  lemma LostIsNull(s: string)
    requires Cast(s).Success? && Normalised(s) == Text(LostFields()) && InZone(Parse(s).value)
    ensures Cast(s).value == Null
  {
    hide Text, Read, InRange, Separated, Pack;
    AcceptedIsText(s);
    LostIsMinimum();
    ReadOfText(Parse(s).value);
    ReadOfText(LostFields());
  }

  /** `to_string`: peels the fields off the packed number from its low end. For a
      value cast from a text in one of the zones -12 to +14 this is that text in
      normal form, but for the one date that reads as NULL. */
  method ToString(v: Value) returns (s: string)
    ensures forall text :: Cast(text) == Success(v) && InZone(Parse(text).value) ==>
              s == if Normalised(text) == Text(LostFields()) then "timestamp_null" else Normalised(text)
    ensures s == Print(v)
  {
    hide Text, Split, Cast, Normalised, InZone;
    PrintsBack(v);
    if v.Null? {
      return "timestamp_null";
    }
    var tm, micro, second, sec, minute, year, day, month := v.bits, 0, 0, 0, 0, 0, 0, 0;
    var zone: int := 0;
    var peeled := Split(tm, 1000000);
    tm, micro := peeled.0, peeled.1;
    peeled := Split(tm, 100000);
    tm, second := peeled.0, peeled.1;
    peeled := Split(tm, 10000);
    tm, year := peeled.0, peeled.1;
    peeled := Split(tm, 27);
    tm, zone := peeled.0, peeled.1;
    peeled := Split(tm, 32);
    month, day := peeled.0, peeled.1;
    peeled := Split(second, 60);
    second, sec := peeled.0, peeled.1;
    peeled := Split(second, 60);
    second, minute := peeled.0, peeled.1;
    s := Text(Fields(year, month, day, second % 24, minute, sec, micro, zone - 12));
  }
}
