/** Reading dates and times written without leading zeros, which the documentation of mysqlpp/lib/datetime.h
    allows. */
module PlainDates {

  import opened Basics
  import opened DateTimes

  function PlainDateText(d: DateValue): string {
    Decimal(d.year) + "-" + (Decimal(d.month) + "-" + Decimal(d.day))
  }

  function PlainTimeText(t: TimeValue): string {
    Decimal(t.hour) + ":" + (Decimal(t.minute) + ":" + Decimal(t.second))
  }

  function PlainDateTimeText(dt: DateTimeValue): string {
    PlainDateText(dt.date) + " " + PlainTimeText(dt.time)
  }

  lemma DecimalStarts(n: nat)
    ensures IsDigit(Decimal(n)[0])
  {
  }

  lemma DecimalIsPadded(n: nat)
    ensures n >= 10 ==> Decimal(n) == Padded(2, n)
    ensures 1000 <= n < 0x1_0000 ==> Decimal(n) == Padded(4, n)
  {
    if 1000 <= n < 10000 {
      DecimalFour(n);
    } else if 10000 <= n < 0x1_0000 {
      DecimalFour(n / 10);
    }
  }

  lemma PlainField(n: uint8, separator: char, rest: string)
    requires !IsDigit(separator) && rest != [] && rest[0] != separator
    ensures n < 100 ==> Field(Decimal(n) + [separator] + rest, 2, separator) == Some((n, rest))
    ensures n >= 100 ==>
      var f := Field(Decimal(n) + [separator] + rest, 2, separator);
      f.Some? && f.value.0 == n / 10
  {
    if n >= 10 {
      DecimalIsPadded(n);
      TwoDigitField(n, separator, rest);
    } else {
      StrtolTwo(n, separator);
      hide Strtol;
      var s := Decimal(n) + [separator] + rest;
      assert s[..2] == [Digit(n), separator] && s[2..] == rest;
    }
  }

  lemma PlainYearField(n: uint16, rest: string)
    requires n >= 100 && rest != [] && rest[0] != '-'
    ensures n < 10000 ==> Field(Decimal(n) + "-" + rest, 4, '-') == Some((n, rest))
    ensures n >= 10000 ==>
      var f := Field(Decimal(n) + "-" + rest, 4, '-');
      f.Some? && f.value.0 == n / 10
  {
    if n >= 1000 {
      DecimalIsPadded(n);
      YearField(n, rest);
    } else {
      DecimalFour(n);
      StrtolFour(n);
      hide Strtol, Decimal;
      var s := Decimal(n) + "-" + rest;
      assert s[..4] == [Digit(n / 100), Digit(n / 10 % 10), Digit(n % 10), '-'] && s[4..] == rest;
    }
  }

  /** The last field, at the end of the text or before a space, which goes with a single digit. */
  lemma PlainLast(n: uint8, more: string)
    requires more == [] || more[0] == ' '
    ensures var f := LastField(Decimal(n) + more);
      && f.Some?
      && (n < 100 ==> f.value.0 == n)
      && (n >= 100 ==> f.value.0 == n / 10)
      && (n < 100 && more != [] ==> f.value.1 == Some(if n < 10 then more[1..] else more))
  {
    if n >= 10 {
      DecimalIsPadded(n);
      LastTwoDigits(n, more);
    } else {
      StrtolTwo(n, ' ');
      hide Strtol;
      var s := Decimal(n) + more;
      assert more == [] ==> s == [Digit(n)];
      assert more != [] ==> s[..2] == [Digit(n), ' '] && s[2..] == more[1..];
    }
  }

  /** The documentation says that times need no leading zeros, and so it is. */
  lemma PlainTimeRoundTrip(t: TimeValue)
    ensures ReadTime(PlainTimeText(t)).Some? && ReadTime(PlainTimeText(t)).value.0 == t <==> TimeFits(t)
  {
    hide Decimal, Field, LastField, ReadTime;
    var s2 := Decimal(t.second);
    var s1 := Decimal(t.minute) + ":" + s2;
    assert PlainTimeText(t) == Decimal(t.hour) + ":" + s1;
    ReadTimeFields(PlainTimeText(t));
    DecimalStarts(t.minute);
    DecimalStarts(t.second);
    PlainField(t.hour, ':', s1);
    PlainField(t.minute, ':', s2);
    PlainLast(t.second, []);
    assert s2 + [] == s2;
  }

  /** The years from 100 on, with what follows the day. */
  lemma PlainDateRead(d: DateValue, more: string)
    requires d.year >= 100 && (more == [] || more[0] == ' ')
    ensures var r := ReadDate(PlainDateText(d) + more);
      && (r.Some? && r.value.0 == d <==> DateFits(d))
      && (DateFits(d) && more != [] ==> r.value.1 == Some(if d.day < 10 then more[1..] else more))
  {
    hide Decimal, Field, LastField, ReadDate;
    var s2 := Decimal(d.day) + more;
    var s1 := Decimal(d.month) + "-" + s2;
    Joined(Decimal(d.year), Decimal(d.month), Decimal(d.day), "-", more);
    ReadDateFields(PlainDateText(d) + more);
    DecimalStarts(d.month);
    DecimalStarts(d.day);
    PlainYearField(d.year, s1);
    PlainField(d.month, '-', s2);
    PlainLast(d.day, more);
  }

  /** The month is cut after four places of the text, so that a year below 100 takes digits of it: it is
      misread, or nothing of it is left. */
  lemma CutMonth(y: string, n: uint8, rest: string)
    requires 1 <= |y| <= 2 && rest != [] && rest[0] != '-'
    ensures var f := Field(y + "-" + (Decimal(n) + "-" + rest), 4, '-');
      && f.Some?
      && (f.value.1 == rest ||
          var g := Field(f.value.1, 2, '-');
          g.Some? && 0 <= g.value.0 < 100 && g.value.0 != n)
  {
    hide Decimal, Strtol;
    var m := Decimal(n);
    var s := y + "-" + (m + "-" + rest);
    DecimalLength(n);
    assert s[|y| + 1..] == m + "-" + rest;
    assert s[4..] == s[|y| + 1..][3 - |y|..];
    if |y| + |m| <= 3 {
      assert (m + "-" + rest)[|m|..] == "-" + rest && ("-" + rest)[1..] == rest;
    } else {
      var left := m[3 - |y|..];
      assert s[4..] == left + "-" + rest;
      LeftOfMonth(n, left, rest);
    }
  }

  lemma DecimalLength(n: uint8)
    ensures 1 <= |Decimal(n)| <= 3
  {
    if n < 100 {
      DecimalTwo(n);
    } else {
      DecimalFour(n);
    }
  }

  lemma LeftOfMonth(n: uint8, left: string, rest: string)
    requires 1 <= |left| < |Decimal(n)| && left == Decimal(n)[|Decimal(n)| - |left|..]
    ensures left[0] != '-'
    ensures var g := Field(left + "-" + rest, 2, '-');
      g.Some? && 0 <= g.value.0 < 100 && g.value.0 != n
  {
    hide Decimal, Strtol;
    if n < 100 {
      DecimalTwo(n);
    } else {
      DecimalFour(n);
    }
    var s := left + "-" + rest;
    if |left| == 1 {
      StrtolTwo(n % 10, '-');
      assert s[..2] == [Digit(n % 10), '-'];
    } else {
      StrtolTwo(n % 100, '-');
      Hundreds(n);
      assert s[..2] == TwoDigits(n % 100);
    }
  }

  /** A year below 100 takes the dash, and digits of the month, into its four places: then the month is
      misread, or the day is read as the month. */
  lemma ShortYear(d: DateValue, more: string)
    requires d.year < 100
    ensures var f := Field(PlainDateText(d) + more, 4, '-');
      && f.Some?
      && (f.value.1 == Decimal(d.day) + more ||
          var g := Field(f.value.1, 2, '-');
          g.Some? && 0 <= g.value.0 < 100 && g.value.0 != d.month)
  {
    DecimalTwo(d.year);
    hide Decimal, Field;
    DecimalStarts(d.day);
    Joined(Decimal(d.year), Decimal(d.month), Decimal(d.day), "-", more);
    CutMonth(Decimal(d.year), d.month, Decimal(d.day) + more);
  }

  /** A digit and something else, read as a field of two. */
  lemma OneDigit(k: nat, c: char, rest: string, separator: char)
    requires k < 10 && !IsDigit(c)
    ensures var s := [Digit(k), c] + rest;
      && Field(s, 2, separator).Some? && Field(s, 2, separator).value.0 == k
      && LastField(s).Some? && LastField(s).value == (k, Some(rest))
  {
    StrtolTwo(k, c);
    hide Strtol;
    var s := [Digit(k), c] + rest;
    assert s[..2] == [Digit(k), c] && s[2..] == rest;
  }

  lemma WideField(n: uint8, more: string, separator: char)
    requires n >= 100 && !IsDigit(separator)
    ensures Field(Decimal(n) + more, 2, separator) == Some((n / 10, [Digit(n % 10)] + more))
    ensures LastField(Decimal(n) + more) == Some((n / 10, Some([Digit(n % 10)] + more)))
  {
    DecimalIsPadded(n);
    Wide(n);
    StrtolTwo(n / 10, ':');
    hide Padded, Decimal, TwoDigits, Strtol;
    var s := Decimal(n) + more;
    assert s[..2] == TwoDigits(n / 10) && s[2..] == [Digit(n % 10)] + more;
    assert ([Digit(n % 10)] + more)[0] == Digit(n % 10);
  }

  /** A number that ends the text cannot be read as two fields and come out right. */
  lemma CannotBeTwo(n: uint8, separator: char)
    requires !IsDigit(separator)
    ensures var f := Field(Decimal(n), 2, separator);
      f.Some? ==> var g := LastField(f.value.1); g.Some? ==> g.value.0 != n && 0 <= g.value.0 < 10
  {
    assert Decimal(n) + "" == Decimal(n);
    if n >= 100 {
      WideField(n, "", separator);
      StrtolTwo(n % 10, ':');
      assert [Digit(n % 10)] + "" == [Digit(n % 10)];
    } else {
      DecimalTwo(n);
    }
  }

  /** The documentation says that dates need no leading zeros: that is so exactly from the year 100 on. */
  lemma PlainDateRoundTrip(d: DateValue)
    ensures ReadDate(PlainDateText(d)).Some? && ReadDate(PlainDateText(d)).value.0 == d <==>
      DateFits(d) && d.year >= 100
  {
    hide Decimal, Field, LastField, ReadDate, PlainDateText;
    assert PlainDateText(d) + "" == PlainDateText(d) && Decimal(d.day) + "" == Decimal(d.day);
    if d.year >= 100 {
      PlainDateRead(d, "");
    } else {
      ReadDateFields(PlainDateText(d));
      ShortYear(d, "");
      CannotBeTwo(d.day, '-');
    }
  }

  /** A time without its hour is never read as the time. */
  lemma HourMissing(t: TimeValue)
    ensures var r := ReadTime(Decimal(t.minute) + ":" + Decimal(t.second));
      r.Some? ==> r.value.0 != t
  {
    hide Decimal, Field, LastField, ReadTime;
    var s := Decimal(t.minute) + ":" + Decimal(t.second);
    ReadTimeFields(s);
    DecimalStarts(t.second);
    if t.minute < 100 {
      PlainField(t.minute, ':', Decimal(t.second));
      CannotBeTwo(t.second, ':');
    } else {
      WideField(t.minute, ":" + Decimal(t.second), ':');
      OneDigit(t.minute % 10, ':', Decimal(t.second), ':');
      assert s == Decimal(t.minute) + (":" + Decimal(t.second));
      assert [Digit(t.minute % 10)] + (":" + Decimal(t.second)) == [Digit(t.minute % 10), ':'] + Decimal(t.second);
    }
  }

  /** The hour was read as the day: what is left is not the time. */
  lemma HourAsDay(t: TimeValue)
    ensures var f := LastField(PlainTimeText(t));
      && f.Some? && f.value.1.Some?
      && f.value.1.value != [] && f.value.1.value[0] != ' '
      && var r := ReadTime(f.value.1.value); r.Some? ==> r.value.0 != t
  {
    hide Decimal, Field, LastField, ReadTime;
    var rest := Decimal(t.minute) + ":" + Decimal(t.second);
    assert PlainTimeText(t) == Decimal(t.hour) + (":" + rest);
    DecimalStarts(t.minute);
    if t.hour < 10 {
      OneDigit(t.hour, ':', rest, ':');
      DecimalTwo(t.hour);
      assert [Digit(t.hour)] + (":" + rest) == [Digit(t.hour), ':'] + rest;
      HourMissing(t);
    } else if t.hour < 100 {
      DecimalIsPadded(t.hour);
      LastTwoDigits(t.hour, ":" + rest);
      ReadTimeFields(":" + rest);
      NoNumber(":" + rest);
    } else {
      WideField(t.hour, ":" + rest, ':');
      var left := [Digit(t.hour % 10)] + (":" + rest);
      assert left == [Digit(t.hour % 10), ':'] + rest;
      ReadTimeFields(left);
      OneDigit(t.hour % 10, ':', rest, ':');
    }
  }

  lemma NoNumber(s: string)
    requires s != [] && s[0] == ':'
    ensures Field(s, 2, ':').Some? ==> Field(s, 2, ':').value.0 == 0
  {
  }

  lemma SpaceAndDigit(rest: string)
    requires rest != [] && IsDigit(rest[0])
    ensures LastField(" " + rest).Some? && 0 <= LastField(" " + rest).value.0 < 10
  {
    var s := " " + rest;
    assert s[..2] == " " + [rest[0]] && s[..2][1..] == [rest[0]];
    LeadingStep(rest[0], [], 0);
    assert [rest[0]] + [] == [rest[0]];
    assert Strtol(s[..2]) == Strtol([rest[0]]) == Leading([rest[0]], 0);
  }

  /** The day was read as the month: the date is wrong, or the hour is read as the day and the time is. */
  lemma DayAsMonth(dt: DateTimeValue, s: string)
    requires Field(s, 4, '-').Some?
    requires Field(s, 4, '-').value.1 == Decimal(dt.date.day) + (" " + PlainTimeText(dt.time))
    ensures var r := ReadDateTime(s); r.Some? ==> r.value.0 != dt
  {
    hide Decimal, Field, LastField, ReadDate, ReadTime, PlainTimeText;
    var n, text := dt.date.day, PlainTimeText(dt.time);
    var rest := Decimal(n) + (" " + text);
    PlainTimeStarts(dt.time);
    ReadDateFields(s);
    if n < 10 {
      HourAsDay(dt.time);
      DayGoesWithSpace(n, text);
    } else if n < 100 {
      DayLeavesSpace(n, text);
      SpaceAndDigit(text);
    } else {
      WideField(n, " " + text, '-');
      OneDigit(n % 10, ' ', text, '-');
      assert [Digit(n % 10)] + (" " + text) == [Digit(n % 10), ' '] + text;
    }
  }

  /** For a date and time too: none with a year below 100 survives. */
  lemma PlainDateTimeRoundTrip(dt: DateTimeValue)
    requires !dt.now
    ensures ReadDateTime(PlainDateTimeText(dt)).Some? && ReadDateTime(PlainDateTimeText(dt)).value.0 == dt <==>
      DateFits(dt.date) && TimeFits(dt.time) && dt.date.year >= 100
  {
    hide Decimal, Field, LastField, ReadDate, ReadTime, PlainTimeText, PlainDateText;
    var s, more := PlainDateTimeText(dt), " " + PlainTimeText(dt.time);
    assert s == PlainDateText(dt.date) + more && more[1..] == PlainTimeText(dt.time);
    if dt.date.year >= 100 {
      PlainDateRead(dt.date, more);
      PlainTimeStarts(dt.time);
      PlainTimeRoundTrip(dt.time);
    } else {
      ShortYear(dt.date, more);
      ReadDateFields(s);
      if Field(s, 4, '-').value.1 == Decimal(dt.date.day) + more {
        DayAsMonth(dt, s);
      }
    }
  }

  lemma PlainTimeStarts(t: TimeValue)
    ensures PlainTimeText(t) != [] && IsDigit(PlainTimeText(t)[0])
  {
    DecimalStarts(t.hour);
  }

  lemma DayGoesWithSpace(n: uint8, text: string)
    requires n < 10 && text != [] && text[0] != '-'
    ensures Field(Decimal(n) + (" " + text), 2, '-') == Some((n, text))
  {
    DecimalTwo(n);
    StrtolTwo(n, ' ');
    hide Strtol;
    var s := Decimal(n) + (" " + text);
    assert s[..2] == [Digit(n), ' '] && s[2..] == text;
  }

  lemma DayLeavesSpace(n: uint8, text: string)
    requires 10 <= n < 100
    ensures Field(Decimal(n) + (" " + text), 2, '-') == Some((n, " " + text))
  {
    DecimalTwo(n);
    StrtolTwo(n, ' ');
    hide Strtol, Decimal, TwoDigits;
    var s := Decimal(n) + (" " + text);
    assert s[..2] == TwoDigits(n) && s[2..] == " " + text;
  }
}
