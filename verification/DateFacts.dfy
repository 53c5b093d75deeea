/** The text of dates and times, character by character, and other texts that are read as dates and times. */
module DateFacts {
  import opened Basics
  import opened DateTimes
  import opened PrintedOrder

  // ----- what is printed -----

  predicate AllDigits(s: string) {
    forall i :: 0 <= i < |s| ==> '0' <= s[i] <= '9'
  }

  lemma {:induction false} LeadingSnoc(s: string, c: char, acc: nat)
    requires AllDigits(s) && '0' <= c <= '9'
    ensures Leading(s + [c], acc) == 10 * Leading(s, acc) + (c as nat - '0' as nat)
  {
    if s == [] {
      assert s + [c] == [c] + [];
      LeadingStep(c, [], acc);
    } else {
      assert s + [c] == [s[0]] + (s[1..] + [c]) && s == [s[0]] + s[1..];
      LeadingStep(s[0], s[1..] + [c], acc);
      LeadingStep(s[0], s[1..], acc);
      LeadingSnoc(s[1..], c, 10 * acc + DigitValue(s[0]));
    }
  }

  /** A number is written in decimal digits, without a leading zero unless it is zero. */
  lemma {:induction false} DecimalMeans(n: nat)
    ensures AllDigits(Decimal(n)) && Leading(Decimal(n), 0) == n
    ensures n > 0 ==> Decimal(n)[0] != '0'
    ensures n == 0 ==> Decimal(n) == "0"
  {
    var c := Digit(n % 10);
    assert c as nat - '0' as nat == n % 10;
    if n < 10 {
      LeadingSnoc([], c, 0);
      assert [] + [c] == [c];
    } else {
      DecimalMeans(n / 10);
      LeadingSnoc(Decimal(n / 10), c, 0);
    }
  }

  lemma {:induction false} ZerosAre(k: nat, s: string)
    ensures |Zeros(k)| == k && AllDigits(Zeros(k))
    ensures Leading(Zeros(k) + s, 0) == Leading(s, 0)
    ensures k > 0 ==> Zeros(k)[0] == '0'
  {
    if k == 0 {
      assert Zeros(0) + s == s;
    } else {
      ZerosAre(k - 1, s);
      assert Zeros(k) + s == ['0'] + (Zeros(k - 1) + s);
      LeadingStep('0', Zeros(k - 1) + s, 0);
    }
  }

  lemma DigitsTogether(a: string, b: string)
    requires AllDigits(a) && AllDigits(b)
    ensures AllDigits(a + b) && |a + b| == |a| + |b|
  {
  }

  lemma PaddedIs(width: nat, n: nat)
    ensures var k := if |Decimal(n)| < width then width - |Decimal(n)| else 0;
      Padded(width, n) == Zeros(k) + Decimal(n)
  {
    hide Decimal;
    assert Zeros(0) == "" && "" + Decimal(n) == Decimal(n);
  }

  /** A field is its number, filled up with zeros to its width; it is not cut. */
  lemma PaddedMeans(width: nat, n: nat)
    ensures AllDigits(Padded(width, n)) && Leading(Padded(width, n), 0) == n
    ensures |Padded(width, n)| == if |Decimal(n)| < width then width else |Decimal(n)|
  {
    hide Padded, Decimal, Zeros, Leading, AllDigits;
    var k := if |Decimal(n)| < width then width - |Decimal(n)| else 0;
    PaddedIs(width, n);
    DecimalMeans(n);
    ZerosAre(k, Decimal(n));
    DigitsTogether(Zeros(k), Decimal(n));
  }

  /** The separators, and the text of NOW. */
  lemma TextsAre(dt: DateTimeValue)
    ensures DateText(dt.date) ==
      Padded(4, dt.date.year) + "-" + Padded(2, dt.date.month) + "-" + Padded(2, dt.date.day)
    ensures TimeText(dt.time) ==
      Padded(2, dt.time.hour) + ":" + Padded(2, dt.time.minute) + ":" + Padded(2, dt.time.second)
    ensures dt.now ==> DateTimeText(dt) == "NOW()"
    ensures !dt.now ==> DateTimeText(dt) == DateText(dt.date) + " " + TimeText(dt.time)
  {
  }

  // ----- what is read -----

  lemma DigitsOnly(n: nat)
    requires n < 100
    ensures Strtol(TwoDigits(n)) == n
  {
    StrtolTwo(n, ':');
  }

  /** A field that is not followed by its separator, but by a digit. */
  lemma CloseField(s: string, width: nat, separator: char, rest: string)
    requires |s| == width && rest != [] && rest[0] != separator
    ensures Field(s + rest, width, separator) == Some((Strtol(s), rest))
  {
    assert (s + rest)[..width] == s && (s + rest)[width..] == rest;
  }

  lemma TwoIsDigit(n: nat, rest: string)
    requires n < 100
    ensures (TwoDigits(n) + rest)[0] != '-' && (TwoDigits(n) + rest)[0] != ':' && (TwoDigits(n) + rest)[0] != ' '
    ensures |TwoDigits(n)| == 2
  {
  }

  /** A field of two digits, and any other text behind it. */
  lemma CloseTwo(n: uint8, separator: char, rest: string)
    requires n < 100 && rest != [] && rest[0] != separator && !IsDigit(separator)
    ensures Field(Padded(2, n) + rest, 2, separator) == Some((n, rest))
    ensures (Padded(2, n) + rest)[0] != '-' && (Padded(2, n) + rest)[0] != ':'
  {
    PaddedToTwo(n);
    DigitsOnly(n);
    TwoIsDigit(n, rest);
    hide Padded, TwoDigits, Strtol, Field;
    CloseField(TwoDigits(n), 2, separator, rest);
  }

  lemma CloseFour(n: uint16, rest: string)
    requires n < 10000 && rest != [] && rest[0] != '-'
    ensures Field(Padded(4, n) + rest, 4, '-') == Some((n, rest))
  {
    PaddedToFour(n);
    StrtolFour(n);
    FourLong(n);
    hide Padded, FourDigits, Strtol, Field;
    CloseField(FourDigits(n), 4, '-', rest);
  }

  lemma FourLong(n: nat)
    requires n < 10000
    ensures |FourDigits(n)| == 4
  {
  }

  lemma PaddedStarts(n: uint8, more: string)
    requires n < 100
    ensures Padded(2, n) + more != [] && (Padded(2, n) + more)[0] != '-' && (Padded(2, n) + more)[0] != ':'
  {
    PaddedToTwo(n);
    TwoIsDigit(n, more);
  }

  /** Separators may be left out: eight digits are a date, and six a time. */
  lemma CompactDate(d: DateValue, more: string)
    requires DateFits(d)
    ensures ReadDate(Padded(4, d.year) + (Padded(2, d.month) + (Padded(2, d.day) + more))) == Some((d, Some(more)))
  {
    hide Padded, Field, LastField, ReadDate;
    var s2 := Padded(2, d.day) + more;
    var s1 := Padded(2, d.month) + s2;
    PaddedStarts(d.day, more);
    PaddedStarts(d.month, s2);
    CloseFour(d.year, s1);
    CloseTwo(d.month, '-', s2);
    LastTwoDigits(d.day, more);
    ReadDateFields(Padded(4, d.year) + s1);
  }

  lemma CompactTime(t: TimeValue, more: string)
    requires TimeFits(t)
    ensures ReadTime(Padded(2, t.hour) + (Padded(2, t.minute) + (Padded(2, t.second) + more))) == Some((t, Some(more)))
  {
    hide Padded, Field, LastField, ReadTime;
    var s2 := Padded(2, t.second) + more;
    var s1 := Padded(2, t.minute) + s2;
    PaddedStarts(t.second, more);
    PaddedStarts(t.minute, s2);
    CloseTwo(t.hour, ':', s1);
    CloseTwo(t.minute, ':', s2);
    LastTwoDigits(t.second, more);
    ReadTimeFields(Padded(2, t.hour) + s1);
  }

  /** The space between a date and a time may be left out too. */
  lemma WithoutSpace(d: DateValue, t: TimeValue)
    requires DateFits(d) && TimeFits(t)
    ensures ReadDateTime(DateText(d) + TimeText(t)) == Some((DateTimeValue(d, t, false), Some("")))
  {
    TimeStarts(t);
    DateRoundTrip(d, TimeText(t));
    TimeRoundTrip(t, "");
    hide DateText, TimeText, ReadDate, ReadTime;
    assert TimeText(t) + "" == TimeText(t);
  }

  lemma TimeStarts(t: TimeValue)
    requires TimeFits(t)
    ensures TimeText(t) != [] && TimeText(t)[0] != ' '
  {
    PaddedToTwo(t.hour);
    TwoIsDigit(t.hour, "");
    hide Padded;
    assert TimeText(t)[0] == TwoDigits(t.hour)[0];
  }

  /** The conversion of a field: white space is skipped, a sign counts, and reading stops at the first
      character that is no digit. */
  lemma StrtolMeans(c: char, s: string)
    ensures c == ' ' || c == '\t' || c == '\n' || c == '\r' || c as int == 11 || c as int == 12 ==>
      Strtol([c] + s) == Strtol(s)
    ensures Strtol("-" + s) == 0 - Leading(s, 0) && Strtol("+" + s) == Leading(s, 0)
    ensures '0' <= c <= '9' ==> Strtol([c] + s) == Leading(s, c as nat - '0' as nat)
    ensures (c < '0' || c > '9') && c != ' ' && c != '-' && c != '+' && (c as int < 9 || c as int > 13) ==>
      Strtol([c] + s) == 0
    ensures Strtol("") == 0
  {
    assert ([c] + s)[1..] == s && ("-" + s)[1..] == s && ("+" + s)[1..] == s;
    if '0' <= c <= '9' {
      LeadingStep(c, s, 0);
    }
  }

  /** The fields are kept modulo what they can hold, so that minus one hour is hour 255. */
  lemma HourMinusOne()
    ensures ReadTime("-1:02:03") == Some((TimeValue(255, 2, 3), Some("")))
  {
    hide Field, LastField, Padded, TwoDigits, ReadTime, Strtol;
    var s := "-1:02:03";
    FirstHour(s);
    PaddedFields();
    TwoDigitField(2, ':', "03");
    LastTwoDigits(3, "");
    assert "02" + [':'] + "03" == "02:03" && "03" + "" == "03";
    ReadTimeFields(s);
  }

  lemma PaddedFields()
    ensures Padded(2, 2) == "02" && Padded(2, 3) == "03"
  {
    PaddedToTwo(2);
    PaddedToTwo(3);
  }

  lemma FirstHour(s: string)
    requires s == "-1:02:03"
    ensures Field(s, 2, ':') == Some((-1, "02:03"))
  {
    StrtolMeans('-', "1");
    LeadingStep('1', "", 0);
    assert "-" + "1" == "-1" && ['1'] + "" == "1";
    assert Strtol("-1") == -1;
    hide Strtol, Leading;
    assert s[..2] == "-1" && s[2..] == ":02:03" && ":02:03"[1..] == "02:03";
  }

  // ----- how they compare -----

  /** The result of compare is the difference of the first fields that differ. */
  lemma CompareIsDifference(a: DateTimeValue, b: DateTimeValue)
    ensures CompareDates(a.date, b.date) ==
      if a.date.year != b.date.year then a.date.year as int - b.date.year as int
      else if a.date.month != b.date.month then a.date.month as int - b.date.month as int
      else a.date.day as int - b.date.day as int
    ensures CompareTimes(a.time, b.time) ==
      if a.time.hour != b.time.hour then a.time.hour as int - b.time.hour as int
      else if a.time.minute != b.time.minute then a.time.minute as int - b.time.minute as int
      else a.time.second as int - b.time.second as int
    ensures a.now && b.now ==> CompareDateTimes(a, b) == 0
    ensures !(a.now && b.now) && a.date != b.date ==> CompareDateTimes(a, b) == CompareDates(a.date, b.date)
    ensures !(a.now && b.now) && a.date == b.date ==> CompareDateTimes(a, b) == CompareTimes(a.time, b.time)
  {
  }

  lemma SameStart(s: string, t: string, k: nat)
    requires k <= |s| && k <= |t| && s[..k] == t[..k]
    ensures k > 0 ==> s[0] == t[0]
  {
    if k > 0 {
      assert s[..k][0] == t[..k][0];
    }
  }

  /** One string is before another when it is a proper prefix of it, or less at the first character in which
      they differ. */
  lemma {:induction false} BeforeMeans(s: string, t: string)
    ensures Before(s, t) <==>
      s < t || exists k :: 0 <= k < |s| && k < |t| && s[..k] == t[..k] && s[k] < t[k]
  {
    if s != [] && t != [] {
      var s', t' := s[1..], t[1..];
      BeforeMeans(s', t');
      assert s == [s[0]] + s' && t == [t[0]] + t';
      if s[0] == t[0] {
        if k :| 0 <= k < |s'| && k < |t'| && s'[..k] == t'[..k] && s'[k] < t'[k] {
          assert s[..k + 1] == [s[0]] + s'[..k] && t[..k + 1] == [t[0]] + t'[..k] && s[k + 1] < t[k + 1];
        }
        if k :| 0 <= k < |s| && k < |t| && s[..k] == t[..k] && s[k] < t[k] {
          assert s'[..k - 1] == s[..k][1..] && t'[..k - 1] == t[..k][1..] && s'[k - 1] < t'[k - 1];
        }
        assert s < t <==> s' < t';
      } else if s[0] < t[0] {
        assert s[..0] == t[..0];
      } else {
        forall k | 0 <= k < |s| && k < |t| && s[..k] == t[..k]
          ensures k == 0
        {
          SameStart(s, t, k);
        }
      }
    }
  }
}
