/** Dates and times of mysqlpp/lib/datetime.cpp and datetime.h: how they are printed, read and compared. */
module DateTimes {
  import opened Basics

  type uint8 = byte
  type uint16 = x: int | 0 <= x < 0x1_0000

  datatype DateValue = DateValue(year: uint16, month: uint8, day: uint8)
  datatype TimeValue = TimeValue(hour: uint8, minute: uint8, second: uint8)

  /** `now` marks a value that prints as a call of NOW(). */
  datatype DateTimeValue = DateTimeValue(date: DateValue, time: TimeValue, now: bool)

  // ----- printing -----

  function Decimal(n: nat): (s: string)
    ensures |s| >= 1
  {
    if n < 10 then [Digit(n)] else Decimal(n / 10) + [Digit(n % 10)]
  }

  function Zeros(n: nat): string {
    if n == 0 then "" else "0" + Zeros(n - 1)
  }

  /** A number under setw(width) and setfill('0'): wider numbers are not cut. */
  function Padded(width: nat, n: nat): string {
    var s := Decimal(n);
    (if |s| < width then Zeros(width - |s|) else "") + s
  }

  function DateText(d: DateValue): string {
    Padded(4, d.year) + "-" + Padded(2, d.month) + "-" + Padded(2, d.day)
  }

  function TimeText(t: TimeValue): string {
    Padded(2, t.hour) + ":" + Padded(2, t.minute) + ":" + Padded(2, t.second)
  }

  function DateTimeText(dt: DateTimeValue): string {
    if dt.now then "NOW()" else DateText(dt.date) + " " + TimeText(dt.time)
  }

  // ----- comparing -----

  function CompareDates(a: DateValue, b: DateValue): int {
    if a.year != b.year then a.year - b.year
    else if a.month != b.month then a.month - b.month
    else a.day - b.day
  }

  function CompareTimes(a: TimeValue, b: TimeValue): int {
    if a.hour != b.hour then a.hour - b.hour
    else if a.minute != b.minute then a.minute - b.minute
    else a.second - b.second
  }

  function CompareDateTimes(a: DateTimeValue, b: DateTimeValue): int {
    if a.now && b.now then 0
    else
      var x := CompareDates(a.date, b.date);
      if x != 0 then x else CompareTimes(a.time, b.time)
  }

  // ----- reading -----

  predicate IsSpace(c: char) {
    c == ' ' || '\t' <= c <= '\r'
  }

  /** strtol with base 10: white space, a sign, digits. */
  function Strtol(s: string): int {
    if s == [] then 0
    else if IsSpace(s[0]) then Strtol(s[1..])
    else if s[0] == '-' then 0 - Leading(s[1..], 0)
    else if s[0] == '+' then Leading(s[1..], 0)
    else Leading(s, 0)
  }

  datatype Option<+T> = None | Some(value: T)

  /** A field of the given width, then a separator if it is there: the number and what is left of the C
      string.  None if the cursor passes the end of the string and is then looked at. */
  function Field(s: string, width: nat, separator: char): Option<(int, string)> {
    if |s| < width then None
    else
      var rest := s[width..];
      Some((Strtol(s[..width]), if rest != [] && rest[0] == separator then rest[1..] else rest))
  }

  /** The last field, of two characters.  A string of one character is read with its terminator, and
      then nothing is left that the cursor may look at. */
  function LastField(s: string): Option<(int, Option<string>)> {
    if s == [] then None
    else if |s| == 1 then Some((Strtol(s), None))
    else Some((Strtol(s[..2]), Some(s[2..])))
  }

  function ReadDate(s: string): Option<(DateValue, Option<string>)> {
    match Field(s, 4, '-')
    case None => None
    case Some((y, s1)) =>
      match Field(s1, 2, '-')
      case None => None
      case Some((m, s2)) =>
        match LastField(s2)
        case None => None
        case Some((d, rest)) => Some((DateValue(y % 0x1_0000, m % 256, d % 256), rest))
  }

  function ReadTime(s: string): Option<(TimeValue, Option<string>)> {
    match Field(s, 2, ':')
    case None => None
    case Some((h, s1)) =>
      match Field(s1, 2, ':')
      case None => None
      case Some((m, s2)) =>
        match LastField(s2)
        case None => None
        case Some((sec, rest)) => Some((TimeValue(h % 256, m % 256, sec % 256), rest))
  }

  function ReadDateTime(s: string): Option<(DateTimeValue, Option<string>)> {
    match ReadDate(s)
    case None => None
    case Some((_, None)) => None
    case Some((date, Some(s1))) =>
      match ReadTime(if s1 != [] && s1[0] == ' ' then s1[1..] else s1)
      case None => None
      case Some((time, rest)) => Some((DateTimeValue(date, time, false), rest))
  }

  // ----- the objects -----

  class Date {
    var year: uint16
    var month: uint8
    var day: uint8

    constructor ()
      ensures Value() == DateValue(0, 0, 0)
    {
      year, month, day := 0, 0, 0;
    }

    /** A copy of the fields of a DateTime. */
    constructor Of(d: DateValue)
      ensures Value() == d
    {
      year, month, day := d.year, d.month, d.day;
    }

    function Value(): DateValue
      reads this
    {
      DateValue(year, month, day)
    }

    /** Date::convert: sets the fields and returns what follows them. */
    method Convert(str: string) returns (left: Option<string>)
      requires ReadDate(str).Some?
      modifies this
      ensures Some((Value(), left)) == ReadDate(str)
    {
      var num, rest;
      num, rest := str[..4], str[4..];
      year := Strtol(num) % 0x1_0000;
      if rest != [] && rest[0] == '-' {
        rest := rest[1..];
      }
      num, rest := rest[..2], rest[2..];
      month := Strtol(num) % 256;
      if rest != [] && rest[0] == '-' {
        rest := rest[1..];
      }
      if |rest| == 1 {
        num, left := rest, None;
      } else {
        num, left := rest[..2], Some(rest[2..]);
      }
      day := Strtol(num) % 256;
    }

    method Compare(other: Date) returns (r: int)
      ensures r == CompareDates(Value(), other.Value())
    {
      if year != other.year {
        return year - other.year;
      }
      if month != other.month {
        return month - other.month;
      }
      r := day - other.day;
    }
  }

  class Time {
    var hour: uint8
    var minute: uint8
    var second: uint8

    constructor ()
      ensures Value() == TimeValue(0, 0, 0)
    {
      hour, minute, second := 0, 0, 0;
    }

    /** A copy of the fields of a DateTime. */
    constructor Of(t: TimeValue)
      ensures Value() == t
    {
      hour, minute, second := t.hour, t.minute, t.second;
    }

    function Value(): TimeValue
      reads this
    {
      TimeValue(hour, minute, second)
    }

    /** Time::convert */
    method Convert(str: string) returns (left: Option<string>)
      requires ReadTime(str).Some?
      modifies this
      ensures Some((Value(), left)) == ReadTime(str)
    {
      var num, rest;
      num, rest := str[..2], str[2..];
      hour := Strtol(num) % 256;
      if rest != [] && rest[0] == ':' {
        rest := rest[1..];
      }
      num, rest := rest[..2], rest[2..];
      minute := Strtol(num) % 256;
      if rest != [] && rest[0] == ':' {
        rest := rest[1..];
      }
      if |rest| == 1 {
        num, left := rest, None;
      } else {
        num, left := rest[..2], Some(rest[2..]);
      }
      second := Strtol(num) % 256;
    }

    method Compare(other: Time) returns (r: int)
      ensures r == CompareTimes(Value(), other.Value())
    {
      if hour != other.hour {
        return hour - other.hour;
      }
      if minute != other.minute {
        return minute - other.minute;
      }
      r := second - other.second;
    }
  }

  class DateTime {
    var date: DateValue
    var time: TimeValue
    var now: bool

    constructor ()
      ensures Value() == DateTimeValue(DateValue(0, 0, 0), TimeValue(0, 0, 0), true)
    {
      date, time, now := DateValue(0, 0, 0), TimeValue(0, 0, 0), true;
    }

    function Value(): DateTimeValue
      reads this
    {
      DateTimeValue(date, time, now)
    }

    /** DateTime::convert, by way of a Date and a Time. */
    method Convert(str: string) returns (left: Option<string>)
      requires ReadDateTime(str).Some?
      modifies this
      ensures Some((Value(), left)) == ReadDateTime(str)
    {
      var d := new Date();
      left := d.Convert(str);
      date := d.Value();
      var rest := left.value;
      if rest != [] && rest[0] == ' ' {
        rest := rest[1..];
      }
      var t := new Time();
      left := t.Convert(rest);
      time, now := t.Value(), false;
    }

    method Compare(other: DateTime) returns (r: int)
      ensures r == CompareDateTimes(Value(), other.Value())
    {
      if now && other.now {
        return 0;
      }
      var d := new Date.Of(date);
      var od := new Date.Of(other.date);
      var t := new Time.Of(time);
      var ot := new Time.Of(other.time);
      var x := d.Compare(od);
      if x != 0 {
        r := x;
      } else {
        r := t.Compare(ot);
      }
    }
  }

  // ----- numbers of two and four digits -----

  function TwoDigits(n: nat): string
    requires n < 100
  {
    [Digit(n / 10), Digit(n % 10)]
  }

  function FourDigits(n: nat): string
    requires n < 10000
  {
    [Digit(n / 1000), Digit(n / 100 % 10), Digit(n / 10 % 10), Digit(n % 10)]
  }

  lemma DecimalTwo(n: nat)
    requires n < 100
    ensures Decimal(n) == if n < 10 then [Digit(n)] else TwoDigits(n)
  {
    assert n >= 10 ==> Decimal(n / 10) == [Digit(n / 10)];
  }

  lemma DecimalFour(n: nat)
    requires 100 <= n < 10000
    ensures Decimal(n) ==
      if n < 1000 then [Digit(n / 100), Digit(n / 10 % 10), Digit(n % 10)] else FourDigits(n)
  {
    assert Decimal(n) == Decimal(n / 10) + [Digit(n % 10)];
    if n < 1000 {
      DecimalTwo(n / 10);
    } else {
      assert Decimal(n / 10) == Decimal(n / 100) + [Digit(n / 10 % 10)];
      DecimalTwo(n / 100);
    }
  }

  lemma PaddedToTwo(n: nat)
    requires n < 100
    ensures Padded(2, n) == TwoDigits(n)
  {
    DecimalTwo(n);
    assert Zeros(1) == "0" + Zeros(0) == "0";
  }

  lemma PaddedToFour(n: nat)
    requires n < 10000
    ensures Padded(4, n) == FourDigits(n)
  {
    assert Zeros(0) == "" && Zeros(1) == "0" && Zeros(2) == "00" && Zeros(3) == "000";
    hide Decimal, Zeros;
    SmallDigits(n);
    if n < 100 {
      DecimalTwo(n);
    } else {
      DecimalFour(n);
    }
  }

  lemma SmallDigits(n: nat)
    ensures n < 1000 ==> n / 1000 == 0 && n / 100 % 10 == n / 100
    ensures n < 100 ==> n / 100 % 10 == 0 && n / 10 % 10 == n / 10
    ensures n < 10 ==> n / 10 % 10 == 0 && n % 10 == n
    ensures Digit(0) == '0'
  {
  }

  lemma Hundreds(n: nat)
    ensures n / 100 / 10 == n / 1000
    ensures n % 100 / 10 == n / 10 % 10
    ensures n % 100 % 10 == n % 10
  {
    var h, r := n / 100, n % 100;
    assert n == 100 * h + r;
    assert n / 10 == 10 * h + r / 10;
  }

  lemma LeadingTwo(a: nat, b: nat, more: string)
    requires a < 10 && b < 10 && (more == [] || !IsDigit(more[0]))
    ensures Leading([Digit(a)] + more, 0) == a
    ensures Leading([Digit(a), Digit(b)] + more, 0) == 10 * a + b
  {
    assert Leading(more, a) == a && Leading(more, 10 * a + b) == 10 * a + b;
    LeadingStep(Digit(a), more, 0);
    LeadingStep(Digit(a), [Digit(b)] + more, 0);
    LeadingStep(Digit(b), more, a);
    hide Leading;
    assert [Digit(a), Digit(b)] + more == [Digit(a)] + ([Digit(b)] + more);
  }

  lemma StrtolTwo(n: nat, separator: char)
    requires n < 100 && !IsDigit(separator)
    ensures Strtol(TwoDigits(n)) == n
    ensures n < 10 ==> Strtol([Digit(n), separator]) == n && Strtol([Digit(n)]) == n
  {
    LeadingTwo(n / 10, n % 10, []);
    assert TwoDigits(n) == [Digit(n / 10), Digit(n % 10)] + [];
    if n < 10 {
      LeadingTwo(n, 0, []);
      LeadingTwo(n, 0, [separator]);
      assert [Digit(n), separator] == [Digit(n)] + [separator] && [Digit(n)] == [Digit(n)] + [];
    }
  }

  lemma StrtolFour(n: nat)
    requires n < 10000
    ensures Strtol(FourDigits(n)) == n
    ensures 100 <= n < 1000 ==> Strtol([Digit(n / 100), Digit(n / 10 % 10), Digit(n % 10), '-']) == n
  {
    LeadingFour(Digit(n / 1000), Digit(n / 100 % 10), Digit(n / 10 % 10), Digit(n % 10));
    hide Leading;
    FourParts(n);
    if 100 <= n < 1000 {
      LeadingFour(Digit(n / 100), Digit(n / 10 % 10), Digit(n % 10), '-');
    }
  }

  lemma FourParts(n: nat)
    requires n < 10000
    ensures n == 1000 * (n / 1000) + 100 * (n / 100 % 10) + 10 * (n / 10 % 10) + n % 10
    ensures n < 1000 ==> n / 100 % 10 == n / 100
  {
    var a, b := n / 10, n / 100;
    assert n == 10 * a + n % 10 && a == 10 * b + a % 10 && b == 10 * (n / 1000) + b % 10;
  }

  lemma LeadingFour(a: char, b: char, c: char, d: char)
    requires IsDigit(a) && IsDigit(b) && IsDigit(c)
    ensures Leading([a, b, c, d], 0) ==
      if IsDigit(d) then 1000 * DigitValue(a) + 100 * DigitValue(b) + 10 * DigitValue(c) + DigitValue(d)
      else 100 * DigitValue(a) + 10 * DigitValue(b) + DigitValue(c)
  {
    var v1 := DigitValue(a);
    var v2 := 10 * v1 + DigitValue(b);
    var v3 := 10 * v2 + DigitValue(c);
    assert forall acc: nat :: Leading([], acc) == acc;
    LeadingStep(a, [b, c, d], 0);
    LeadingStep(b, [c, d], v1);
    LeadingStep(c, [d], v2);
    LeadingStep(d, [], v3);
    hide Leading;
    assert [a, b, c, d] == [a] + [b, c, d] && [b, c, d] == [b] + [c, d] && [c, d] == [c] + [d] && [d] == [d] + [];
  }

  // ----- fields -----

  /** A padded field of two digits is read back; a wider one is cut after two digits. */
  lemma TwoDigitField(n: uint8, separator: char, rest: string)
    requires !IsDigit(separator)
    ensures n < 100 ==> Field(Padded(2, n) + [separator] + rest, 2, separator) == Some((n, rest))
    ensures n >= 100 ==>
      var f := Field(Padded(2, n) + [separator] + rest, 2, separator);
      f.Some? && f.value.0 == n / 10
  {
    var s := Padded(2, n) + [separator] + rest;
    if n < 100 {
      PaddedToTwo(n);
      StrtolTwo(n, separator);
      hide Padded, TwoDigits, Strtol;
      assert s[..2] == TwoDigits(n) && s[2..] == [separator] + rest;
      assert s[2..][1..] == rest;
    } else {
      Wide(n);
      StrtolTwo(n / 10, separator);
      hide Padded, TwoDigits, Strtol;
      assert s[..2] == TwoDigits(n / 10);
    }
  }

  lemma Wide(n: nat)
    requires 100 <= n < 1000
    ensures Padded(2, n) == TwoDigits(n / 10) + [Digit(n % 10)]
  {
    DecimalTwo(n / 10);
  }

  lemma LastTwoDigits(n: uint8, more: string)
    ensures n < 100 ==> LastField(Padded(2, n) + more) == Some((n, Some(more)))
    ensures n >= 100 ==> LastField(Padded(2, n) + more).Some? && LastField(Padded(2, n) + more).value.0 == n / 10
  {
    var s := Padded(2, n) + more;
    if n < 100 {
      PaddedToTwo(n);
      StrtolTwo(n, ':');
      hide Padded, TwoDigits, Strtol;
      assert s[..2] == TwoDigits(n) && s[2..] == more;
    } else {
      Wide(n);
      StrtolTwo(n / 10, ':');
      hide Padded, TwoDigits, Strtol;
      assert s[..2] == TwoDigits(n / 10);
    }
  }

  lemma YearField(n: uint16, rest: string)
    ensures n < 10000 ==> Field(Padded(4, n) + "-" + rest, 4, '-') == Some((n, rest))
    ensures n >= 10000 ==>
      var f := Field(Padded(4, n) + "-" + rest, 4, '-');
      f.Some? && f.value.0 == n / 10
  {
    var s := Padded(4, n) + "-" + rest;
    if n < 10000 {
      PaddedToFour(n);
      StrtolFour(n);
      hide Padded, FourDigits, Strtol;
      assert s[..4] == FourDigits(n) && s[4..] == "-" + rest;
      assert s[4..][1..] == rest;
    } else {
      DecimalFour(n / 10);
      assert Padded(4, n) == FourDigits(n / 10) + [Digit(n % 10)];
      StrtolFour(n / 10);
      hide Padded, FourDigits, Strtol;
      assert s[..4] == FourDigits(n / 10);
    }
  }

  // ----- round trips -----

  predicate DateFits(d: DateValue) {
    d.year < 10000 && d.month < 100 && d.day < 100
  }

  predicate TimeFits(t: TimeValue) {
    t.hour < 100 && t.minute < 100 && t.second < 100
  }

  /** Three fields make a date. */
  lemma ReadDateFields(s: string)
    ensures var f := Field(s, 4, '-');
      && (ReadDate(s).Some? ==> f.Some? && ReadDate(s).value.0.year == f.value.0 % 0x1_0000)
      && (f.Some? ==>
            var g := Field(f.value.1, 2, '-');
            && (ReadDate(s).Some? ==> g.Some? && ReadDate(s).value.0.month == g.value.0 % 256)
            && (g.Some? ==>
                  var h := LastField(g.value.1);
                  && (ReadDate(s).Some? ==> h.Some? && ReadDate(s).value.0.day == h.value.0 % 256)
                  && (h.Some? ==> ReadDate(s).Some? && ReadDate(s).value.1 == h.value.1)))
  {
    hide Field, LastField;
  }

  lemma ReadTimeFields(s: string)
    ensures var f := Field(s, 2, ':');
      && (ReadTime(s).Some? ==> f.Some? && ReadTime(s).value.0.hour == f.value.0 % 256)
      && (f.Some? ==>
            var g := Field(f.value.1, 2, ':');
            && (ReadTime(s).Some? ==> g.Some? && ReadTime(s).value.0.minute == g.value.0 % 256)
            && (g.Some? ==>
                  var h := LastField(g.value.1);
                  && (ReadTime(s).Some? ==> h.Some? && ReadTime(s).value.0.second == h.value.0 % 256)
                  && (h.Some? ==> ReadTime(s).Some? && ReadTime(s).value.1 == h.value.1)))
  {
    hide Field, LastField;
  }

  lemma Joined(x: string, y: string, z: string, c: string, more: string)
    ensures x + c + y + c + z + more == x + c + (y + c + (z + more))
    ensures x + c + (y + c + z) + more == x + c + (y + c + (z + more))
  {
    var xc, yc := x + c, y + c;
    ConcatAssociates(xc, y, c);
    ConcatAssociates(xc, yc, z);
    ConcatAssociates(xc, yc + z, more);
    ConcatAssociates(yc, z, more);
  }

  /** Reading the text of a date gives it back, and leaves what follows it, exactly when each field has no
      more digits than its place; otherwise another date is read, or none. */
  lemma DateRoundTrip(d: DateValue, more: string)
    ensures ReadDate(DateText(d) + more) == Some((d, Some(more))) <==> DateFits(d)
    ensures !DateFits(d) ==> ReadDate(DateText(d) + more).None? || ReadDate(DateText(d) + more).value.0 != d
  {
    hide Padded, Field, LastField, ReadDate;
    var s2 := Padded(2, d.day) + more;
    var s1 := Padded(2, d.month) + "-" + s2;
    Joined(Padded(4, d.year), Padded(2, d.month), Padded(2, d.day), "-", more);
    ReadDateFields(DateText(d) + more);
    YearField(d.year, s1);
    TwoDigitField(d.month, '-', s2);
    LastTwoDigits(d.day, more);
  }

  /** For times the documentation allows hours up to 255, but only those of two digits come back. */
  lemma TimeRoundTrip(t: TimeValue, more: string)
    ensures ReadTime(TimeText(t) + more) == Some((t, Some(more))) <==> TimeFits(t)
    ensures !TimeFits(t) ==> ReadTime(TimeText(t) + more).None? || ReadTime(TimeText(t) + more).value.0 != t
  {
    hide Padded, Field, LastField, ReadTime;
    var s2 := Padded(2, t.second) + more;
    var s1 := Padded(2, t.minute) + ":" + s2;
    Joined(Padded(2, t.hour), Padded(2, t.minute), Padded(2, t.second), ":", more);
    ReadTimeFields(TimeText(t) + more);
    TwoDigitField(t.hour, ':', s1);
    TwoDigitField(t.minute, ':', s2);
    LastTwoDigits(t.second, more);
  }

  lemma DateTimeRoundTrip(dt: DateTimeValue)
    ensures ReadDateTime(DateTimeText(dt)) == Some((dt, Some(""))) <==>
      !dt.now && DateFits(dt.date) && TimeFits(dt.time)
  {
    hide ReadDate, ReadTime, DateText, TimeText;
    if !dt.now {
      var time := TimeText(dt.time);
      assert DateTimeText(dt) == DateText(dt.date) + (" " + time);
      DateRoundTrip(dt.date, " " + time);
      TimeRoundTrip(dt.time, "");
      assert time + "" == time && (" " + time)[1..] == time;
    }
  }
}
