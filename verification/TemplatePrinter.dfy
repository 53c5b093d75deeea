/** A canonical way to write a template down, and the proof that Query::parse inverts it. */
module TemplatePrinter {
  import opened Basics
  import opened TemplateQuery

  /** Literal text, then a parameter, possibly with a name. */
  datatype Slot = Slot(before: string, num: nat, option: char, named: bool, name: string)

  predicate IsLiteral(text: string) {
    forall j :: 0 <= j < |text| ==> text[j] != '\0'
  }

  predicate IsName(name: string) {
    forall j :: 0 <= j < |name| ==> IsNameChar(name[j])
  }

  predicate IsSlot(slot: Slot) {
    && IsLiteral(slot.before) && slot.num <= 127
    && (slot.option == ' ' || slot.option == 'q' || slot.option == 'Q')
    && if slot.named then IsName(slot.name) else slot.name == ""
  }

  predicate AreSlots(slots: seq<Slot>) {
    forall j :: 0 <= j < |slots| ==> IsSlot(slots[j])
  }

  // ----- printing -----

  /** Literal text with its percent signs doubled. */
  function Doubled(text: string): string {
    if text == [] then "" else (if text[0] == '%' then "%%" else [text[0]]) + Doubled(text[1..])
  }

  function ThreeDigitsOf(num: nat): (digits: string)
    requires num < 1000
    ensures |digits| == 3
  {
    [Digit(num / 100), Digit(num / 10 % 10), Digit(num % 10)]
  }

  function Optional(option: char): string {
    if option == ' ' then "" else [option]
  }

  function NamePart(slot: Slot): string {
    if slot.named then ":" + slot.name + ":" else ""
  }

  /** What follows the percent sign of a parameter. */
  function Tag(slot: Slot): string
    requires slot.num < 1000
  {
    ThreeDigitsOf(slot.num) + Optional(slot.option) + NamePart(slot)
  }

  function Print(slots: seq<Slot>, tail: string): string
    requires AreSlots(slots)
  {
    if slots == [] then Doubled(tail)
    else Doubled(slots[0].before) + "%" + Tag(slots[0]) + Print(slots[1..], tail)
  }

  /** The elements the parser should find, with the final one that has no parameter. */
  function Elements(slots: seq<Slot>, tail: string): seq<Element> {
    if slots == [] then [Element(tail, ' ', -1)]
    else [Element(slots[0].before, slots[0].option, slots[0].num)] + Elements(slots[1..], tail)
  }

  function NamingsOf(slots: seq<Slot>): seq<Naming> {
    if slots == [] then []
    else (if slots[0].named then [Naming(slots[0].num, slots[0].name)] else []) + NamingsOf(slots[1..])
  }

  // ----- when the printed text can be read back -----

  function NextLiteral(slots: seq<Slot>, tail: string): string {
    if slots == [] then tail else slots[0].before
  }

  /** The text after an unnamed parameter cannot be taken for its option or its name. */
  predicate Clear(slot: Slot, next: char) {
    slot.named || (next != ':' && (slot.option == ' ' ==> next != 'q' && next != 'Q'))
  }

  predicate Separable(slots: seq<Slot>, tail: string) {
    slots == [] || (Clear(slots[0], First(NextLiteral(slots[1..], tail))) && Separable(slots[1..], tail))
  }

  /** The parser reads doubled literal text back. */
  lemma {:induction false} ParseLiteral(text: string, rest: string, before: string)
    requires IsLiteral(text)
    ensures ParseFrom(Doubled(text) + rest, before) == ParseFrom(rest, before + text)
  {
    hide ParseFrom;
    if text == [] {
      assert "" + rest == rest && before + "" == before;
    } else {
      var c, later := text[0], Doubled(text[1..]) + rest;
      var s := Doubled(text) + rest;
      if c == '%' {
        ConcatAssociates("%%", Doubled(text[1..]), rest);
        OnePercents(later, before);
      } else {
        ConcatAssociates([c], Doubled(text[1..]), rest);
        OneCharacter(c, later, before);
      }
      ParseLiteral(text[1..], rest, before + [c]);
      ConcatAssociates(before, [c], text[1..]);
      assert [c] + text[1..] == text;
      assert c == '%' ==> [c] == "%";
    }
  }

  lemma OneCharacter(c: char, later: string, before: string)
    requires c != '%' && c != '\0'
    ensures ParseFrom([c] + later, before) == ParseFrom(later, before + [c])
  {
    assert ([c] + later)[1..] == later;
  }

  lemma OnePercents(later: string, before: string)
    ensures ParseFrom("%%" + later, before) == ParseFrom(later, before + "%")
  {
    var s := "%%" + later;
    assert s[1..][0] == '%' && s[2..] == later;
  }

  lemma {:induction false} NameRunOf(name: string, rest: string)
    requires IsName(name) && !IsNameChar(First(rest))
    ensures NameRun(name + rest) == |name|
  {
    if name == [] {
      assert name + rest == rest;
    } else {
      assert (name + rest)[1..] == name[1..] + rest;
      NameRunOf(name[1..], rest);
    }
  }

  lemma ValueOfThree(a: nat, b: nat, c: nat)
    requires a < 10 && b < 10 && c < 10
    ensures Leading([Digit(a), Digit(b), Digit(c)], 0) == 100 * a + 10 * b + c
    ensures IsDigit(Digit(a)) && IsDigit(Digit(b)) && IsDigit(Digit(c))
  {
    assert Leading([], 100 * a + 10 * b + c) == 100 * a + 10 * b + c;
    LeadingStep(Digit(c), [], 10 * a + b);
    LeadingStep(Digit(b), [Digit(c)], a);
    LeadingStep(Digit(a), [Digit(b), Digit(c)], 0);
    hide Leading;
    assert [Digit(a), Digit(b), Digit(c)] == [Digit(a)] + [Digit(b), Digit(c)];
    assert [Digit(b), Digit(c)] == [Digit(b)] + [Digit(c)] && [Digit(c)] == [Digit(c)] + [];
  }

  lemma AfterThree(digits: string, rest: string)
    requires |digits| == 3
    ensures (digits + rest)[..3] == digits && (digits + rest)[3..] == rest
    ensures forall k :: 0 <= k < 3 ==> (digits + rest)[k] == digits[k]
  {
  }

  lemma RunOfThree(s: string)
    requires |s| >= 3 && IsDigit(s[0]) && IsDigit(s[1]) && IsDigit(s[2])
    ensures DigitRun(s, 3) == 3
  {
    assert s[0..] == s;
    ThreeDigits(s, 0);
  }

  lemma DigitsRead(num: nat, rest: string)
    requires num <= 127
    ensures var s := ThreeDigitsOf(num) + rest;
      && IsDigit(First(s)) && DigitRun(s, 3) == 3 && s[..3] == ThreeDigitsOf(num) && s[3..] == rest
    ensures ToSignedChar(Leading(ThreeDigitsOf(num), 0)) == num
  {
    hide Leading, Digit, IsDigit, DigitRun;
    ValueOfThree(num / 100, num / 10 % 10, num % 10);
    AfterThree(ThreeDigitsOf(num), rest);
    RunOfThree(ThreeDigitsOf(num) + rest);
  }

  /** The parser reads a printed parameter back if the next character is no part of it. */
  lemma ReadTag(slot: Slot, rest: string)
    requires IsSlot(slot) && Clear(slot, First(rest))
    ensures IsDigit(First(Tag(slot) + rest))
    ensures ReadParameter(Tag(slot) + rest) == Parameter(slot.num, slot.option, slot.named, slot.name, |Tag(slot)|)
    ensures (Tag(slot) + rest)[|Tag(slot)|..] == rest
  {
    hide ReadParameter, ReadName, ThreeDigitsOf, Optional, DigitRun, Leading, IsNameChar;
    var prefix := ThreeDigitsOf(slot.num) + Optional(slot.option);
    TagOption(slot, rest);
    if slot.named {
      assert Tag(slot) + rest == prefix + (":" + slot.name + ":" + rest);
      ReadPrintedName(slot.num, slot.option, prefix, slot.name, rest);
    } else {
      assert Tag(slot) == prefix;
      ReadNoName(slot.num, slot.option, prefix, rest);
    }
  }

  lemma ReadPrintedName(num: int, option: char, prefix: string, name: string, rest: string)
    requires IsName(name)
    ensures ReadName(num, option, prefix + (":" + name + ":" + rest), |prefix|) ==
      Parameter(num, option, true, name, |prefix| + |name| + 2)
  {
    var s, o := prefix + (":" + name + ":" + rest), |prefix|;
    assert s[o] == ':';
    assert s[o + 1..] == name + (":" + rest);
    NameRunOf(name, ":" + rest);
    hide NameRun;
    var e := o + 1 + |name|;
    assert s[o + 1..e] == name && s[e] == ':';
  }

  lemma ReadNoName(num: int, option: char, prefix: string, rest: string)
    requires First(rest) != ':'
    ensures ReadName(num, option, prefix + rest, |prefix|) == Parameter(num, option, false, "", |prefix|)
  {
    assert (prefix + rest)[|prefix|..] == rest;
  }

  /** The position and the option of a printed parameter. */
  lemma TagOption(slot: Slot, rest: string)
    requires IsSlot(slot)
    requires slot.option == ' ' ==> First(NamePart(slot) + rest) != 'q' && First(NamePart(slot) + rest) != 'Q'
    ensures var s := Tag(slot) + rest;
      IsDigit(First(s)) && ReadParameter(s) == ReadName(slot.num, slot.option, s, 3 + |Optional(slot.option)|)
  {
    var after := NamePart(slot) + rest;
    var s := Tag(slot) + rest;
    assert s == ThreeDigitsOf(slot.num) + (Optional(slot.option) + after);
    DigitsRead(slot.num, Optional(slot.option) + after);
    hide DigitRun, Leading, IsDigit, ThreeDigitsOf, ReadName;
    if slot.option == ' ' {
      assert s[3..] == after;
    } else {
      assert s[3..] == [slot.option] + after;
    }
  }

  /** A separable template is read back as it was written. */
  lemma {:induction false} PrintedIsParsed(slots: seq<Slot>, tail: string)
    requires AreSlots(slots) && IsLiteral(tail) && Separable(slots, tail)
    ensures ParseFrom(Print(slots, tail), "") == Parsed(Elements(slots, tail), NamingsOf(slots))
  {
    if slots == [] {
      ParseLiteral(tail, "", "");
      assert Doubled(tail) + "" == Doubled(tail) && "" + tail == tail;
    } else {
      var slot, rest := slots[0], Print(slots[1..], tail);
      hide ParseFrom, Tag, Doubled;
      FirstPrinted(slots[1..], tail);
      PrintedIsParsed(slots[1..], tail);
      SlotIsParsed(slot, rest);
      PrintSlot(slots, tail);
    }
  }

  lemma PrintSlot(slots: seq<Slot>, tail: string)
    requires AreSlots(slots) && slots != []
    ensures Print(slots, tail) == Doubled(slots[0].before) + ("%" + (Tag(slots[0]) + Print(slots[1..], tail)))
  {
    hide Tag, Doubled;
  }

  lemma FirstPrinted(slots: seq<Slot>, tail: string)
    requires AreSlots(slots)
    ensures var next, printed := First(NextLiteral(slots, tail)), First(Print(slots, tail));
      printed == next || (next == '\0' && printed == '%')
  {
  }

  /** One slot, read up to its end. */
  lemma SlotIsParsed(slot: Slot, rest: string)
    requires IsSlot(slot) && Clear(slot, First(rest))
    ensures var later := ParseFrom(rest, "");
      ParseFrom(Doubled(slot.before) + ("%" + (Tag(slot) + rest)), "") ==
        Parsed([Element(slot.before, slot.option, slot.num)] + later.elems,
               (if slot.named then [Naming(slot.num, slot.name)] else []) + later.namings)
  {
    hide ParseFrom, ReadParameter, Tag, Doubled, IsDigit;
    ParseLiteral(slot.before, "%" + (Tag(slot) + rest), "");
    assert "" + slot.before == slot.before;
    ReadTag(slot, rest);
    ParseParameterText(Tag(slot) + rest, slot.before);
  }

  // ----- what happens to a template that is not separable -----

  /** The text after the literal at the head of a printed template. */
  function AfterLiteral(slots: seq<Slot>, tail: string): string
    requires AreSlots(slots)
  {
    if slots == [] then "" else "%" + (Tag(slots[0]) + Print(slots[1..], tail))
  }

  lemma PrintIsLiteralThenRest(slots: seq<Slot>, tail: string)
    requires AreSlots(slots)
    ensures Print(slots, tail) == Doubled(NextLiteral(slots, tail)) + AfterLiteral(slots, tail)
  {
    if slots == [] {
      assert Doubled(tail) + "" == Doubled(tail);
    } else {
      PrintSlot(slots, tail);
    }
  }

  lemma AfterLiteralStarts(slots: seq<Slot>, tail: string)
    requires AreSlots(slots)
    ensures var rest := AfterLiteral(slots, tail);
      rest == "" || (rest[0] == '%' && IsDigit(First(rest[1..])))
  {
    if slots != [] {
      TagStarts(slots[0], Print(slots[1..], tail));
      assert AfterLiteral(slots, tail)[1..] == Tag(slots[0]) + Print(slots[1..], tail);
    }
  }

  lemma TagStarts(slot: Slot, rest: string)
    requires slot.num <= 127
    ensures IsDigit(First(Tag(slot) + rest))
  {
    var d := Digit(slot.num / 100);
    assert IsDigit(d);
    assert Tag(slot)[0] == d;
    hide Tag, IsDigit;
    assert (Tag(slot) + rest)[0] == d;
  }

  lemma ElementStarts(rest: string, before: string)
    requires rest == "" || (rest[0] == '%' && IsDigit(First(rest[1..])))
    ensures |ParseFrom(rest, before).elems| > 0 && ParseFrom(rest, before).elems[0].before == before
  {
  }

  /** The first element holds the literal text at the head of the template. */
  lemma FirstElement(text: string, slots: seq<Slot>, tail: string)
    requires IsLiteral(text) && AreSlots(slots)
    ensures var elems := ParseFrom(Doubled(text) + AfterLiteral(slots, tail), "").elems;
      |elems| > 0 && elems[0].before == text
  {
    hide Doubled, ParseFrom, AfterLiteral;
    ParseLiteral(text, AfterLiteral(slots, tail), "");
    assert "" + text == text;
    AfterLiteralStarts(slots, tail);
    ElementStarts(AfterLiteral(slots, tail), text);
  }

  lemma {:induction false} NameRunDoubled(text: string, rest: string)
    requires !IsNameChar(First(rest))
    ensures NameRun(Doubled(text) + rest) == NameRun(text)
    ensures forall j :: 0 <= j < NameRun(text) ==> text[j] != '%'
    ensures text != [] && text[0] != '%' ==> (Doubled(text) + rest)[1..] == Doubled(text[1..]) + rest
  {
    if text == [] {
      assert Doubled(text) + rest == rest;
    } else if text[0] != '%' {
      assert (Doubled(text) + rest)[1..] == Doubled(text[1..]) + rest;
      NameRunDoubled(text[1..], rest);
      assert forall j :: 0 < j < |text| ==> text[j] == text[1..][j - 1];
    }
  }

  lemma {:induction false} DoubledDrop(text: string, rest: string, u: nat)
    requires u <= |text| && forall j :: 0 <= j < u ==> text[j] != '%'
    ensures u <= |Doubled(text) + rest| && (Doubled(text) + rest)[u..] == Doubled(text[u..]) + rest
  {
    if u > 0 {
      var s := Doubled(text) + rest;
      assert s == [text[0]] + (Doubled(text[1..]) + rest);
      DoubledDrop(text[1..], rest, u - 1);
      assert text[1..][u - 1..] == text[u..];
      assert s[u..] == s[1..][u - 1..];
    }
  }

  /** After an unnamed parameter, a literal that starts with a colon loses it, with what looks like a
      name. */
  lemma ColonEaten(num: int, option: char, prefix: string, text: string, rest: string) returns (u: nat)
    requires text != [] && text[0] == ':'
    requires First(rest) == '%' || First(rest) == '\0'
    ensures 1 <= u <= |text| && u <= |Doubled(text) + rest|
    ensures ReadName(num, option, prefix + (Doubled(text) + rest), |prefix|).used == |prefix| + u
    ensures (Doubled(text) + rest)[u..] == Doubled(text[u..]) + rest
  {
    hide NameRun, Doubled, ReadName, IsNameChar;
    var t := text[1..];
    var v := Doubled(t) + rest;
    var k := NameRun(t);
    ColonFirst(text, rest);
    NameRunDoubled(t, rest);
    DoubledDrop(t, rest, k);
    UsedAfterColon(num, option, prefix, v);
    u := 1 + k;
    DropMore(":", v, k);
    DropMore(":", t, k);
    if First(v[k..]) == ':' {
      ColonDoubled(t[k..], rest);
      DoubledDrop(t[k..], rest, 1);
      DropMore(":", v, k + 1);
      DropMore(":", t, k + 1);
      assert v[k..][1..] == v[k + 1..] && t[k..][1..] == t[k + 1..];
      u := u + 1;
    }
  }

  lemma ColonFirst(text: string, rest: string)
    requires text != [] && text[0] == ':'
    ensures text == ":" + text[1..] && Doubled(text) + rest == ":" + (Doubled(text[1..]) + rest)
    ensures First(rest) == '%' || First(rest) == '\0' ==> !IsNameChar(First(rest))
  {
  }

  lemma UsedAfterColon(num: int, option: char, prefix: string, v: string)
    ensures ReadName(num, option, prefix + (":" + v), |prefix|).used ==
      |prefix| + 1 + NameRun(v) + if First(v[NameRun(v)..]) == ':' then 1 else 0
  {
    var s := prefix + (":" + v);
    assert s[|prefix| + 1..] == v;
    hide NameRun;
    assert s[|prefix| + 1 + NameRun(v)..] == v[NameRun(v)..];
  }

  lemma ColonDoubled(text: string, rest: string)
    requires First(Doubled(text) + rest) == ':' && First(rest) != ':'
    ensures text != [] && text[0] == ':'
  {
    assert Doubled("") + rest == rest;
  }

  /** A parameter printed without option takes the next character for one. */
  lemma OptionTaken(slot: Slot, rest: string)
    requires IsSlot(slot) && !slot.named && slot.option == ' '
    requires First(rest) == 'q' || First(rest) == 'Q'
    ensures IsDigit(First(Tag(slot) + rest)) && ReadParameter(Tag(slot) + rest).option == First(rest)
  {
    assert Tag(slot) + rest == ThreeDigitsOf(slot.num) + rest;
    DigitsRead(slot.num, rest);
    hide DigitRun, Leading, IsDigit, ThreeDigitsOf, Tag;
  }

  lemma ParameterIsParsed(slot: Slot, rest: string)
    requires IsSlot(slot) && IsDigit(First(Tag(slot) + rest))
    ensures var p := ReadParameter(Tag(slot) + rest);
      ParseFrom(Doubled(slot.before) + ("%" + (Tag(slot) + rest)), "").elems ==
        [Element(slot.before, p.option, p.num)] + ParseFrom((Tag(slot) + rest)[p.used..], "").elems
  {
    hide ParseFrom, ReadParameter, Tag, Doubled, IsDigit;
    ParseLiteral(slot.before, "%" + (Tag(slot) + rest), "");
    assert "" + slot.before == slot.before;
    ParseParameterText(Tag(slot) + rest, slot.before);
  }

  /** A template that is not separable is not read back. */
  lemma {:induction false} NotSeparableIsLost(slots: seq<Slot>, tail: string)
    requires AreSlots(slots) && IsLiteral(tail) && !Separable(slots, tail)
    ensures ParseFrom(Print(slots, tail), "").elems != Elements(slots, tail)
  {
    var slot, rest := slots[0], Print(slots[1..], tail);
    PrintSlot(slots, tail);
    FirstPrinted(slots[1..], tail);
    hide ParseFrom, Tag, Doubled, ReadParameter, Print;
    if Clear(slot, First(NextLiteral(slots[1..], tail))) {
      SlotIsParsed(slot, rest);
      NotSeparableIsLost(slots[1..], tail);
      ConsDiffers(Element(slot.before, slot.option, slot.num), ParseFrom(rest, "").elems, Elements(slots[1..], tail));
    } else if slot.option == ' ' && (First(rest) == 'q' || First(rest) == 'Q') {
      OptionIsLost(slots, tail);
    } else {
      LiteralIsCut(slots, tail);
    }
  }

  lemma OptionIsLost(slots: seq<Slot>, tail: string)
    requires AreSlots(slots) && slots != [] && !slots[0].named && slots[0].option == ' '
    requires var c := First(Print(slots[1..], tail)); c == 'q' || c == 'Q'
    ensures ParseFrom(Print(slots, tail), "").elems != Elements(slots, tail)
  {
    hide ParseFrom, Tag, Doubled, ReadParameter, Print;
    PrintSlot(slots, tail);
    OptionTaken(slots[0], Print(slots[1..], tail));
    ParameterIsParsed(slots[0], Print(slots[1..], tail));
    assert Elements(slots, tail)[0].option == ' ';
  }

  lemma ConsDiffers(e: Element, a: seq<Element>, b: seq<Element>)
    requires a != b
    ensures [e] + a != [e] + b
  {
    assert ([e] + a)[1..] == a && ([e] + b)[1..] == b;
  }

  lemma LiteralIsCut(slots: seq<Slot>, tail: string)
    requires AreSlots(slots) && IsLiteral(tail) && slots != []
    requires !slots[0].named && First(NextLiteral(slots[1..], tail)) == ':'
    ensures ParseFrom(Print(slots, tail), "").elems != Elements(slots, tail)
  {
    var slot, text := slots[0], NextLiteral(slots[1..], tail);
    var after := AfterLiteral(slots[1..], tail);
    hide Print, Tag, Doubled, AfterLiteral, ReadName, ReadParameter, ParseFrom;
    PrintSlot(slots, tail);
    PrintIsLiteralThenRest(slots[1..], tail);
    FirstPrinted(slots[1..], tail);
    AfterLiteralStarts(slots[1..], tail);
    var u := TagEatsColon(slot, text, after);
    FirstElement(text[u..], slots[1..], tail);
    ParameterIsParsed(slot, Doubled(text) + after);
    NextElement(slots, tail);
  }

  lemma NextElement(slots: seq<Slot>, tail: string)
    requires slots != []
    ensures |Elements(slots, tail)| > 1 && Elements(slots, tail)[1].before == NextLiteral(slots[1..], tail)
  {
  }

  /** An unnamed parameter reads into a literal that starts with a colon. */
  lemma TagEatsColon(slot: Slot, text: string, after: string) returns (u: nat)
    requires IsSlot(slot) && !slot.named && First(text) == ':'
    requires First(after) == '%' || First(after) == '\0'
    ensures 1 <= u <= |text|
    ensures var s := Tag(slot) + (Doubled(text) + after);
      && IsDigit(First(s)) && ReadParameter(s).used <= |s|
      && s[ReadParameter(s).used..] == Doubled(text[u..]) + after
  {
    hide ReadName, ReadParameter, Tag, Doubled, NamePart, IsDigit;
    var rest := Doubled(text) + after;
    UnnamedTag(slot, text, after);
    TagOption(slot, rest);
    u := ColonEaten(slot.num, slot.option, Tag(slot), text, after);
    DropMore(Tag(slot), rest, u);
  }

  lemma UnnamedTag(slot: Slot, text: string, after: string)
    requires IsSlot(slot) && !slot.named && First(text) == ':'
    ensures |Tag(slot)| == 3 + |Optional(slot.option)|
    ensures First(NamePart(slot) + (Doubled(text) + after)) == ':'
  {
    assert (Doubled(text) + after)[0] == ':';
    assert NamePart(slot) + (Doubled(text) + after) == Doubled(text) + after;
  }

  lemma DropMore(a: string, b: string, u: nat)
    requires u <= |b|
    ensures (a + b)[|a| + u..] == b[u..]
  {
  }

  /** Round trip: parsing the canonical text of a template gives back its elements exactly when the
      template is separable, and then its names too. */
  lemma ParseInvertsPrint(slots: seq<Slot>, tail: string)
    requires AreSlots(slots) && IsLiteral(tail)
    ensures ParseFrom(Print(slots, tail), "").elems == Elements(slots, tail) <==> Separable(slots, tail)
    ensures Separable(slots, tail) ==> ParseFrom(Print(slots, tail), "").namings == NamingsOf(slots)
  {
    if Separable(slots, tail) {
      PrintedIsParsed(slots, tail);
    } else {
      NotSeparableIsLost(slots, tail);
    }
  }
}
