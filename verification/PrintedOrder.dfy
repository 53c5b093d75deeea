/** The order of dates and times of mysqlpp/lib/datetime.cpp and that of their printed strings. */
module PrintedOrder {
  import opened Basics
  import opened DateTimes

  /** The order of strings, character by character. */
  predicate Before(s: string, t: string) {
    t != [] && (s == [] || s[0] < t[0] || (s[0] == t[0] && Before(s[1..], t[1..])))
  }

  lemma {:induction false} BeforeAppended(x: string, y: string, s: string, t: string)
    requires |x| == |y|
    ensures Before(x + s, y + t) <==> Before(x, y) || (x == y && Before(s, t))
  {
    if x == [] {
      assert x + s == s && y + t == t;
    } else {
      assert (x + s)[1..] == x[1..] + s && (y + t)[1..] == y[1..] + t;
      BeforeAppended(x[1..], y[1..], s, t);
      assert x == [x[0]] + x[1..] && y == [y[0]] + y[1..];
    }
  }

  lemma BeforeTwo(a: char, b: char, c: char, d: char)
    ensures Before([a, b], [c, d]) <==> a < c || (a == c && b < d)
  {
    assert [a, b][1..] == [b] && [c, d][1..] == [d] && [b][1..] == [] && [d][1..] == [];
    assert Before([b], [d]) <==> b < d;
  }

  lemma DigitInOrder(m: nat, n: nat)
    requires m < 10 && n < 10
    ensures Digit(m) < Digit(n) <==> m < n
    ensures Digit(m) == Digit(n) <==> m == n
  {
  }

  lemma TwoInOrder(m: nat, n: nat)
    requires m < 100 && n < 100
    ensures Before(Padded(2, m), Padded(2, n)) <==> m < n
    ensures Padded(2, m) == Padded(2, n) <==> m == n
    ensures |Padded(2, m)| == |Padded(2, n)|
  {
    hide Padded, Before, Digit;
    PaddedToTwo(m);
    PaddedToTwo(n);
    DigitInOrder(m / 10, n / 10);
    DigitInOrder(m % 10, n % 10);
    BeforeTwo(Digit(m / 10), Digit(m % 10), Digit(n / 10), Digit(n % 10));
    assert TwoDigits(m) == TwoDigits(n) <==> Digit(m / 10) == Digit(n / 10) && Digit(m % 10) == Digit(n % 10);
  }

  lemma FourInOrder(m: nat, n: nat)
    requires m < 10000 && n < 10000
    ensures Before(Padded(4, m), Padded(4, n)) <==> m < n
    ensures Padded(4, m) == Padded(4, n) <==> m == n
    ensures |Padded(4, m)| == |Padded(4, n)|
  {
    PaddedToFour(m);
    PaddedToFour(n);
    TwoInOrder(m / 100, n / 100);
    TwoInOrder(m % 100, n % 100);
    FourIsTwice(m);
    FourIsTwice(n);
    hide Padded;
    BeforeAppended(TwoDigits(m / 100), TwoDigits(n / 100), TwoDigits(m % 100), TwoDigits(n % 100));
  }

  lemma FourIsTwice(n: nat)
    requires n < 10000
    ensures FourDigits(n) == TwoDigits(n / 100) + TwoDigits(n % 100)
    ensures Padded(2, n / 100) == TwoDigits(n / 100) && Padded(2, n % 100) == TwoDigits(n % 100)
  {
    hide Padded, Digit;
    PaddedToTwo(n / 100);
    PaddedToTwo(n % 100);
    Hundreds(n);
  }

  /** Two fields with a separator between them, in order. */
  lemma ApartInOrder(x: string, x': string, c: string, s: string, s': string)
    requires |x| == |x'|
    ensures Before(x + (c + s), x' + (c + s')) <==> Before(x, x') || (x == x' && Before(s, s'))
    ensures x + (c + s) == x' + (c + s') <==> x == x' && s == s'
  {
    hide Before;
    BeforeAppended(x, x', c + s, c + s');
    BeforeAppended(c, c, s, s');
    NotBeforeItself(c);
    SameParts(x, x', c + s, c + s');
    SameParts(c, c, s, s');
  }

  lemma Regrouped(x: string, y: string, z: string, c: string)
    ensures x + c + y + c + z == x + (c + (y + (c + z)))
  {
    assert y + c + z == y + (c + z);
  }

  /** Three fields of fixed width with separators between them, in order. */
  lemma ThreeInOrder(x: string, y: string, z: string, x': string, y': string, z': string, c: string)
    requires |x| == |x'| && |y| == |y'|
    ensures Before(x + c + y + c + z, x' + c + y' + c + z') <==>
      Before(x, x') || (x == x' && (Before(y, y') || (y == y' && Before(z, z'))))
    ensures x + c + y + c + z == x' + c + y' + c + z' <==> x == x' && y == y' && z == z'
  {
    hide Before;
    Regrouped(x, y, z, c);
    Regrouped(x', y', z', c);
    ApartInOrder(x, x', c, y + (c + z), y' + (c + z'));
    ApartInOrder(y, y', c, z, z');
  }

  lemma NotBeforeItself(s: string)
    ensures !Before(s, s)
  {
  }

  lemma SameParts(x: string, x': string, s: string, s': string)
    requires |x| == |x'|
    ensures x + s == x' + s' <==> x == x' && s == s'
  {
    assert (x + s)[..|x|] == x && (x' + s')[..|x|] == x';
    assert (x + s)[|x|..] == s && (x' + s')[|x|..] == s';
  }

  /** The sign of compare is the order of the printed strings. */
  lemma DatesInOrder(a: DateValue, b: DateValue)
    requires DateFits(a) && DateFits(b)
    ensures CompareDates(a, b) < 0 <==> Before(DateText(a), DateText(b))
    ensures CompareDates(a, b) == 0 <==> DateText(a) == DateText(b)
    ensures |DateText(a)| == |DateText(b)|
  {
    FourInOrder(a.year, b.year);
    TwoInOrder(a.month, b.month);
    TwoInOrder(a.day, b.day);
    hide Padded, Before;
    ThreeInOrder(Padded(4, a.year), Padded(2, a.month), Padded(2, a.day),
                 Padded(4, b.year), Padded(2, b.month), Padded(2, b.day), "-");
  }

  lemma TimesInOrder(a: TimeValue, b: TimeValue)
    requires TimeFits(a) && TimeFits(b)
    ensures CompareTimes(a, b) < 0 <==> Before(TimeText(a), TimeText(b))
    ensures CompareTimes(a, b) == 0 <==> TimeText(a) == TimeText(b)
    ensures |TimeText(a)| == |TimeText(b)|
  {
    TwoInOrder(a.hour, b.hour);
    TwoInOrder(a.minute, b.minute);
    TwoInOrder(a.second, b.second);
    hide Padded, Before;
    ThreeInOrder(Padded(2, a.hour), Padded(2, a.minute), Padded(2, a.second),
                 Padded(2, b.hour), Padded(2, b.minute), Padded(2, b.second), ":");
  }

  lemma DateTimesInOrder(a: DateTimeValue, b: DateTimeValue)
    requires !a.now && !b.now
    requires DateFits(a.date) && DateFits(b.date) && TimeFits(a.time) && TimeFits(b.time)
    ensures CompareDateTimes(a, b) < 0 <==> Before(DateTimeText(a), DateTimeText(b))
    ensures CompareDateTimes(a, b) == 0 <==> DateTimeText(a) == DateTimeText(b)
  {
    DatesInOrder(a.date, b.date);
    TimesInOrder(a.time, b.time);
    hide DateText, TimeText, Before;
    var s, t := DateText(a.date), DateText(b.date);
    assert DateTimeText(a) == s + (" " + TimeText(a.time)) && DateTimeText(b) == t + (" " + TimeText(b.time));
    BeforeAppended(s, t, " " + TimeText(a.time), " " + TimeText(b.time));
    BeforeAppended(" ", " ", TimeText(a.time), TimeText(b.time));
    NotBeforeItself(" ");
    SameParts(s, t, " " + TimeText(a.time), " " + TimeText(b.time));
    SameParts(" ", " ", TimeText(a.time), TimeText(b.time));
  }

  // ----- numbers with too many digits -----

  /** The numbers that fit a field of the given width. */
  function Limit(width: nat): nat {
    if width == 2 then 100 else 10000
  }

  predicate IsField(width: nat, n: nat) {
    (width == 2 || width == 4) && n < 10 * Limit(width)
  }

  /** Two fields sort as their numbers do: always if they have the same number of digits.  Otherwise the
      longer one is compared without its last digit, and the shorter one has to be less than that; if it
      is equal, what follows it decides, which must be `low`, below the digits. */
  predicate FieldSorts(width: nat, x: nat, y: nat, low: bool) {
    var small, great := if x < y then x else y, if x < y then y else x;
    small < Limit(width) <= great ==> small < great / 10 || (low && small == great / 10)
  }

  /** What follows two fields: nothing, or text that begins with the same character, no digit. */
  predicate Follows(s: string, t: string, low: bool) {
    || (s == "" && t == "" && low)
    || (s != "" && t != "" && s[0] == t[0] && if low then s[0] < '0' else s[0] > '9')
  }

  lemma Shortened(width: nat, n: nat)
    requires IsField(width, n) && n >= Limit(width)
    ensures n / 10 < Limit(width) && Padded(width, n) == Padded(width, n / 10) + [Digit(n % 10)]
  {
    if width == 2 {
      Wide(n);
      PaddedToTwo(n / 10);
    } else {
      DecimalFour(n / 10);
      PaddedToFour(n / 10);
      assert Decimal(n) == Decimal(n / 10) + [Digit(n % 10)];
    }
  }

  lemma FitInOrder(width: nat, m: nat, n: nat)
    requires IsField(width, m) && IsField(width, n) && m < Limit(width) && n < Limit(width)
    ensures Before(Padded(width, m), Padded(width, n)) <==> m < n
    ensures Padded(width, m) == Padded(width, n) <==> m == n
    ensures |Padded(width, m)| == |Padded(width, n)|
  {
    hide Padded, Before;
    if width == 2 {
      TwoInOrder(m, n);
    } else {
      FourInOrder(m, n);
    }
  }

  /** A digit against what may follow a field. */
  lemma DigitOrFollower(d: nat, s: string, t: string, low: bool)
    requires d < 10 && Follows(s, t, low)
    ensures Before(s, [Digit(d)] + t) <==> low
    ensures Before([Digit(d)] + s, t) <==> !low
  {
  }

  lemma DigitsThen(m: nat, n: nat, s: string, t: string)
    requires m < 10 && n < 10 && m != n
    ensures Before([Digit(m)] + s, [Digit(n)] + t) <==> m < n
  {
  }

  /** Two different fields, with what follows them. */
  lemma FieldSortsIff(width: nat, x: nat, y: nat, s: string, t: string, low: bool)
    requires IsField(width, x) && IsField(width, y) && x != y && Follows(s, t, low)
    ensures FieldSorts(width, x, y, low) <==> (x < y <==> Before(Padded(width, x) + s, Padded(width, y) + t))
  {
    hide Padded, Before, Digit;
    var limit := Limit(width);
    if x < limit && y < limit {
      FitInOrder(width, x, y);
      BeforeAppended(Padded(width, x), Padded(width, y), s, t);
    } else if x < limit {
      Shortened(width, y);
      FitInOrder(width, x, y / 10);
      ConcatAssociates(Padded(width, y / 10), [Digit(y % 10)], t);
      BeforeAppended(Padded(width, x), Padded(width, y / 10), s, [Digit(y % 10)] + t);
      DigitOrFollower(y % 10, s, t, low);
    } else if y < limit {
      Shortened(width, x);
      FitInOrder(width, x / 10, y);
      ConcatAssociates(Padded(width, x / 10), [Digit(x % 10)], s);
      BeforeAppended(Padded(width, x / 10), Padded(width, y), [Digit(x % 10)] + s, t);
      DigitOrFollower(x % 10, s, t, low);
    } else {
      Shortened(width, x);
      Shortened(width, y);
      FitInOrder(width, x / 10, y / 10);
      ConcatAssociates(Padded(width, x / 10), [Digit(x % 10)], s);
      ConcatAssociates(Padded(width, y / 10), [Digit(y % 10)], t);
      BeforeAppended(Padded(width, x / 10), Padded(width, y / 10), [Digit(x % 10)] + s, [Digit(y % 10)] + t);
      if x / 10 == y / 10 {
        DigitsThen(x % 10, y % 10, s, t);
      }
    }
  }

  lemma SameField(x: string, s: string, t: string)
    ensures Before(x + s, x + t) <==> Before(s, t)
  {
    BeforeAppended(x, x, s, t);
    NotBeforeItself(x);
  }

  /** A field and what follows it, against others of the same kind: the order of the fields counts if they
      differ, and the order of what follows if not. */
  lemma FieldFirst(width: nat, x: nat, y: nat, c: string, s: string, t: string, low: bool)
    requires IsField(width, x) && IsField(width, y) && |c| == 1 && if low then c[0] < '0' else c[0] > '9'
    ensures var text, text' := Padded(width, x) + (c + s), Padded(width, y) + (c + t);
      if x == y then Before(text, text') <==> Before(s, t)
      else FieldSorts(width, x, y, low) <==> (x < y <==> Before(text, text'))
  {
    hide Padded, Before;
    if x == y {
      SameField(Padded(width, x), c + s, c + t);
      SameField(c, s, t);
    } else {
      FieldSortsIff(width, x, y, c + s, c + t, low);
    }
  }

  /** The first field in which two dates or times differ sorts. */
  predicate DatesSort(a: DateValue, b: DateValue) {
    if a.year != b.year then FieldSorts(4, a.year, b.year, true)
    else if a.month != b.month then FieldSorts(2, a.month, b.month, true)
    else FieldSorts(2, a.day, b.day, true)
  }

  predicate TimesSort(a: TimeValue, b: TimeValue) {
    if a.hour != b.hour then FieldSorts(2, a.hour, b.hour, false)
    else if a.minute != b.minute then FieldSorts(2, a.minute, b.minute, false)
    else FieldSorts(2, a.second, b.second, true)
  }

  predicate DateTimesSort(a: DateTimeValue, b: DateTimeValue) {
    if a.date != b.date then DatesSort(a.date, b.date) else TimesSort(a.time, b.time)
  }

  /** Any two times: compare has the order of the printed strings exactly when the first fields in which
      they differ sort.  The colon is above the digits, so that an hour of two digits that begins one of
      three does not. */
  lemma TimesSortIff(a: TimeValue, b: TimeValue)
    ensures TimesSort(a, b) <==> (CompareTimes(a, b) < 0 <==> Before(TimeText(a), TimeText(b)))
  {
    hide Padded, Before, FieldSorts;
    var (h, m, s) := (Padded(2, a.hour), Padded(2, a.minute), Padded(2, a.second));
    var (h', m', s') := (Padded(2, b.hour), Padded(2, b.minute), Padded(2, b.second));
    Regrouped(h, m, s, ":");
    Regrouped(h', m', s', ":");
    FieldFirst(2, a.hour, b.hour, ":", m + (":" + s), m' + (":" + s'), false);
    if a.hour == b.hour {
      FieldFirst(2, a.minute, b.minute, ":", s, s', false);
      if a.minute == b.minute {
        LastFieldSorts(a.second, b.second, "", "");
        assert s + "" == s && s' + "" == s';
      }
    }
  }

  /** The last field of a date or time, before the end of the text or a space. */
  lemma LastFieldSorts(x: uint8, y: uint8, s: string, t: string)
    requires (s == "" && t == "") || (x != y && s != "" && t != "" && s[0] == t[0] == ' ')
    ensures FieldSorts(2, x, y, true) <==> (x < y <==> Before(Padded(2, x) + s, Padded(2, y) + t))
  {
    hide Padded, Before;
    if x == y {
      NotBeforeItself(Padded(2, x) + s);
    } else {
      FieldSortsIff(2, x, y, s, t, true);
    }
  }

  lemma RegroupedBefore(x: string, y: string, z: string, c: string, more: string)
    ensures x + c + y + c + z + more == x + (c + (y + (c + (z + more))))
  {
    Regrouped(x, y, z, c);
    var yz := y + (c + z);
    ConcatAssociates(x, c + yz, more);
    ConcatAssociates(c, yz, more);
    ConcatAssociates(y, c + z, more);
    ConcatAssociates(c, z, more);
  }

  /** Any two dates, at the end of the text or before a space. */
  lemma DatesSortBefore(a: DateValue, b: DateValue, s: string, t: string)
    requires (s == "" && t == "") || (a != b && s != "" && t != "" && s[0] == t[0] == ' ')
    ensures DatesSort(a, b) <==> (CompareDates(a, b) < 0 <==> Before(DateText(a) + s, DateText(b) + t))
  {
    hide Padded, Before, FieldSorts;
    var (y, m, d) := (Padded(4, a.year), Padded(2, a.month), Padded(2, a.day));
    var (y', m', d') := (Padded(4, b.year), Padded(2, b.month), Padded(2, b.day));
    RegroupedBefore(y, m, d, "-", s);
    RegroupedBefore(y', m', d', "-", t);
    FieldFirst(4, a.year, b.year, "-", m + ("-" + (d + s)), m' + ("-" + (d' + t)), true);
    if a.year == b.year {
      FieldFirst(2, a.month, b.month, "-", d + s, d' + t, true);
      if a.month == b.month {
        LastFieldSorts(a.day, b.day, s, t);
      }
    }
  }

  /** Any two dates: the dash is below the digits, so that only a shorter number greater than the beginning
      of a longer one does not sort. */
  lemma DatesSortIff(a: DateValue, b: DateValue)
    ensures DatesSort(a, b) <==> (CompareDates(a, b) < 0 <==> Before(DateText(a), DateText(b)))
  {
    DatesSortBefore(a, b, "", "");
    assert DateText(a) + "" == DateText(a) && DateText(b) + "" == DateText(b);
  }

  /** Any two dates with times, neither of which is NOW. */
  lemma DateTimesSortIff(a: DateTimeValue, b: DateTimeValue)
    requires !a.now && !b.now
    ensures DateTimesSort(a, b) <==> (CompareDateTimes(a, b) < 0 <==> Before(DateTimeText(a), DateTimeText(b)))
  {
    hide DateText, TimeText, Before, DatesSort, TimesSort;
    var s, t := " " + TimeText(a.time), " " + TimeText(b.time);
    assert DateTimeText(a) == DateText(a.date) + s && DateTimeText(b) == DateText(b.date) + t;
    if a.date != b.date {
      DatesSortBefore(a.date, b.date, s, t);
      DifferentDates(a.date, b.date);
    } else {
      SameField(DateText(a.date), s, t);
      SameField(" ", TimeText(a.time), TimeText(b.time));
      TimesSortIff(a.time, b.time);
    }
  }

  lemma DifferentDates(a: DateValue, b: DateValue)
    ensures CompareDates(a, b) == 0 <==> a == b
  {
  }

  /** A time sorts right against every time of two-digit fields exactly when its own fields have two
      digits. */
  lemma SortsRightIff(a: TimeValue)
    ensures TimeFits(a) <==>
      forall b :: TimeFits(b) ==> (CompareTimes(a, b) < 0 <==> Before(TimeText(a), TimeText(b)))
  {
    hide TimeText, Before, CompareTimes;
    forall b
      ensures TimesSort(a, b) <==> (CompareTimes(a, b) < 0 <==> Before(TimeText(a), TimeText(b)))
    {
      TimesSortIff(a, b);
    }
    if !TimeFits(a) {
      var b := if a.hour >= 100 then TimeValue(99, 0, 0)
               else if a.minute >= 100 then TimeValue(a.hour, 99, 0)
               else TimeValue(a.hour, a.minute, 99);
      assert TimeFits(b) && !TimesSort(a, b);
    }
  }

  // ----- NOW -----

  /** NOW() takes part in comparisons with the fields of a fresh object, all zero: compare finds two equal
      although they print differently exactly when one is NOW() and the other the zero date and time. */
  lemma NowComparesAsZero(a: DateTimeValue, b: DateTimeValue)
    requires IsDateTime(a) && IsDateTime(b)
    ensures (CompareDateTimes(a, b) == 0 <==> DateTimeText(a) == DateTimeText(b)) <==>
      !(a.now != b.now && a.date == b.date && a.time == b.time)
  {
    if !a.now && !b.now {
      DateTimesInOrder(a, b);
    }
  }

  /** A DateTime whose fields fit their places.  A marked one has zero fields: every setter, and convert,
      clears the mark, and the constructor that sets it clears the fields. */
  predicate IsDateTime(dt: DateTimeValue) {
    && DateFits(dt.date) && TimeFits(dt.time)
    && (dt.now ==> dt.date == DateValue(0, 0, 0) && dt.time == TimeValue(0, 0, 0))
  }
}
