/** The text of a template, character by character: what the parser makes of literal text and of a parameter
    in any of the ways it may be written, and what the evaluation of one parameter writes. */
module TemplateSyntax {
  import opened Basics
  import opened TemplateQuery

  // ----- characters -----

  /** A digit run goes on over the digits, and stops at any other character or at its limit. */
  lemma {:induction false} DigitRunIs(s: string, limit: nat)
    ensures var n := DigitRun(s, limit);
      && n <= limit && n <= |s|
      && (forall j :: 0 <= j < n ==> '0' <= s[j] <= '9')
      && (n < limit && n < |s| ==> s[n] < '0' || s[n] > '9')
  {
    if limit > 0 && IsDigit(First(s)) {
      DigitRunIs(s[1..], limit - 1);
      assert forall j :: 0 < j < |s| ==> s[j] == s[1..][j - 1];
    }
  }

  /** A name goes on over letters, digits and underscores, and stops at any other character. */
  lemma {:induction false} NameRunIs(s: string)
    ensures var n := NameRun(s);
      && n <= |s|
      && (forall j :: 0 <= j < n ==>
            'a' <= s[j] <= 'z' || 'A' <= s[j] <= 'Z' || '0' <= s[j] <= '9' || s[j] == '_')
      && (n < |s| ==>
            !('a' <= s[n] <= 'z' || 'A' <= s[n] <= 'Z' || '0' <= s[n] <= '9' || s[n] == '_'))
  {
    if s != [] && NameRun(s) > 0 {
      NameRunIs(s[1..]);
      assert forall j :: 0 < j < |s| ==> s[j] == s[1..][j - 1];
    }
  }

  /** The conversion to signed char: what it can hold, and the same number modulo 256. */
  lemma SignedCharMeans(n: nat)
    ensures -128 <= ToSignedChar(n) <= 127 && (n - ToSignedChar(n)) % 256 == 0
  {
  }

  // ----- literal text -----

  /** Text is copied up to its end or a NUL, but for a doubled percent sign, which stands for one; a percent
      sign before anything else that is no digit is copied too. */
  lemma LiteralsAreCopied(c: char, rest: string, before: string)
    ensures c != '%' && c != '\0' ==> ParseFrom([c] + rest, before) == ParseFrom(rest, before + [c])
    ensures ParseFrom("%%" + rest, before) == ParseFrom(rest, before + "%")
    ensures c != '%' && (c < '0' || c > '9') ==>
      ParseFrom("%" + ([c] + rest), before) == ParseFrom([c] + rest, before + "%")
    ensures ParseFrom("%", before).elems == [Element(before + "%", ' ', -1)]
    ensures ParseFrom("\0" + rest, before) == ParseFrom("", before) == Parsed([Element(before, ' ', -1)], [])
  {
    assert ([c] + rest)[1..] == rest && ("%" + ([c] + rest))[1..] == [c] + rest;
    assert ("%%" + rest)[1..] == "%" + rest && ("%%" + rest)[2..] == rest;
    assert "%"[1..] == "";
  }

  // ----- parameters -----

  /** A parameter as it may be written: digits, an option, and a name that may be closed by a colon. */
  datatype Written = Written(digits: string, option: string, named: bool, name: string, closed: bool)

  function NameText(w: Written): string {
    if !w.named then "" else ":" + w.name + (if w.closed then ":" else "")
  }

  /** What follows the percent sign. */
  function WrittenText(w: Written): string {
    w.digits + (w.option + NameText(w))
  }

  /** One to three digits, no option or one of q and Q, a name of letters, digits and underscores. */
  ghost predicate IsWritten(w: Written) {
    && 1 <= |w.digits| <= 3
    && (forall j :: 0 <= j < |w.digits| ==> '0' <= w.digits[j] <= '9')
    && (w.option == "" || w.option == "q" || w.option == "Q")
    && (forall j :: 0 <= j < |w.name| ==>
          'a' <= w.name[j] <= 'z' || 'A' <= w.name[j] <= 'Z' || '0' <= w.name[j] <= '9' || w.name[j] == '_')
  }

  /** The text that follows cannot be taken for more of the parameter. */
  ghost predicate EndsThere(w: Written, rest: string) {
    var c := First(rest);
    && (!w.named && w.option == "" && |w.digits| < 3 ==> c < '0' || c > '9')
    && (!w.named && w.option == "" ==> c != 'q' && c != 'Q')
    && (!w.named ==> c != ':')
    && (w.named && !w.closed ==>
          c != ':' && !('a' <= c <= 'z' || 'A' <= c <= 'Z' || '0' <= c <= '9' || c == '_'))
  }

  lemma DigitsAreRun(digits: string, rest: string)
    requires 1 <= |digits| <= 3 && forall j :: 0 <= j < |digits| ==> '0' <= digits[j] <= '9'
    requires |digits| == 3 || First(rest) < '0' || First(rest) > '9'
    ensures DigitRun(digits + rest, 3) == |digits|
    ensures (digits + rest)[..|digits|] == digits && (digits + rest)[|digits|..] == rest
    ensures IsDigit(First(digits + rest)) && First(digits + rest) != '%'
  {
    var s := digits + rest;
    DigitRunIs(s, 3);
    var n := DigitRun(s, 3);
    hide DigitRun;
    assert forall j :: 0 <= j < |digits| ==> s[j] == digits[j];
    assert rest != [] ==> s[|digits|] == rest[0];
  }

  lemma NameIsRun(name: string, rest: string)
    requires forall j :: 0 <= j < |name| ==>
      'a' <= name[j] <= 'z' || 'A' <= name[j] <= 'Z' || '0' <= name[j] <= '9' || name[j] == '_'
    requires var c := First(rest); !('a' <= c <= 'z' || 'A' <= c <= 'Z' || '0' <= c <= '9' || c == '_')
    ensures NameRun(name + rest) == |name|
  {
    var s := name + rest;
    NameRunIs(s);
    var n := NameRun(s);
    hide NameRun;
    assert forall j :: 0 <= j < |name| ==> s[j] == name[j];
    assert rest != [] ==> s[|name|] == rest[0];
  }

  lemma ClosedNameIsRead(num: int, option: char, prefix: string, name: string, rest: string)
    requires NameRun(name + (":" + rest)) == |name|
    ensures ReadName(num, option, prefix + (":" + (name + (":" + rest))), |prefix|) ==
      Parameter(num, option, true, name, |prefix| + |name| + 2)
  {
    var s, o := prefix + (":" + (name + (":" + rest))), |prefix|;
    hide NameRun;
    Behind(prefix, ":", name + (":" + rest));
    Behind(prefix + ":", name, ":" + rest);
    ConcatAssociates(prefix, ":", name + (":" + rest));
  }

  lemma OpenNameIsRead(num: int, option: char, prefix: string, name: string, rest: string)
    requires NameRun(name + rest) == |name| && First(rest) != ':'
    ensures ReadName(num, option, prefix + (":" + (name + rest)), |prefix|) ==
      Parameter(num, option, true, name, |prefix| + |name| + 1)
  {
    var s, o := prefix + (":" + (name + rest)), |prefix|;
    hide NameRun;
    Behind(prefix, ":", name + rest);
    Behind(prefix + ":", name, rest);
    ConcatAssociates(prefix, ":", name + rest);
  }

  lemma NoNameIsRead(num: int, option: char, prefix: string, rest: string)
    requires First(rest) != ':'
    ensures ReadName(num, option, prefix + rest, |prefix|) == Parameter(num, option, false, "", |prefix|)
  {
    Behind(prefix, "", rest);
    assert "" + rest == rest;
  }

  lemma Behind(a: string, b: string, c: string)
    ensures var s := a + (b + c);
      && s[|a|..] == b + c && s[|a| + |b|..] == c && s[|a|..|a| + |b|] == b
  {
  }

  lemma NameIsRead(num: int, option: char, prefix: string, w: Written, rest: string)
    requires IsWritten(w) && EndsThere(w, rest)
    ensures ReadName(num, option, prefix + (NameText(w) + rest), |prefix|) ==
      Parameter(num, option, w.named, if w.named then w.name else "", |prefix| + |NameText(w)|)
  {
    hide ReadName, NameRun;
    if !w.named {
      NoNameIsRead(num, option, prefix, rest);
      assert NameText(w) + rest == rest;
    } else if w.closed {
      NameIsRun(w.name, ":" + rest);
      ClosedNameIsRead(num, option, prefix, w.name, rest);
      ConcatAssociates(":", w.name, ":");
      ConcatAssociates(":" + w.name, ":", rest);
      ConcatAssociates(":", w.name, ":" + rest);
    } else {
      NameIsRun(w.name, rest);
      OpenNameIsRead(num, option, prefix, w.name, rest);
      assert NameText(w) == ":" + w.name;
      ConcatAssociates(":", w.name, rest);
    }
  }

  lemma OptionIsRead(digits: string, option: string, rest: string)
    requires 1 <= |digits| <= 3 && forall j :: 0 <= j < |digits| ==> '0' <= digits[j] <= '9'
    requires option == "" || option == "q" || option == "Q"
    requires |digits| == 3 || First(option + rest) < '0' || First(option + rest) > '9'
    requires option == "" ==> First(rest) != 'q' && First(rest) != 'Q'
    ensures var s := digits + (option + rest);
      && IsDigit(First(s)) && First(s) != '%'
      && ReadParameter(s) == ReadName(ToSignedChar(Leading(digits, 0)), if option == "" then ' ' else option[0],
                                      s, |digits| + |option|)
  {
    hide ReadParameter, ReadName, DigitRun, Leading, ToSignedChar, IsDigit, First;
    DigitsAreRun(digits, option + rest);
    FirstOfTwo(option, rest);
    UpToName(digits + (option + rest));
  }

  lemma FirstOfTwo(a: string, b: string)
    ensures First(a + b) == if a == "" then First(b) else a[0]
  {
    assert a == "" ==> a + b == b;
  }

  lemma UpToName(s: string)
    requires IsDigit(First(s))
    ensures var d := DigitRun(s, 3);
      var num, c := ToSignedChar(Leading(s[..d], 0)), First(s[d..]);
      if c == 'q' || c == 'Q' then d < |s| && ReadParameter(s) == ReadName(num, c, s, d + 1)
      else ReadParameter(s) == ReadName(num, ' ', s, d)
  {
    hide ReadName, DigitRun, Leading, ToSignedChar, IsDigit;
  }

  /** However a parameter is written, its number is read from its digits, its option and name are found, and
      reading stops where it ends. */
  lemma WrittenIsRead(w: Written, rest: string)
    requires IsWritten(w) && EndsThere(w, rest)
    ensures var s := WrittenText(w) + rest;
      && IsDigit(First(s)) && First(s) != '%' && s[|WrittenText(w)|..] == rest
      && ReadParameter(s) ==
         Parameter(ToSignedChar(Leading(w.digits, 0)), if w.option == "" then ' ' else w.option[0],
                   w.named, if w.named then w.name else "", |WrittenText(w)|)
  {
    hide ReadName, ReadParameter, Leading, ToSignedChar, NameRun, IsDigit, WrittenText, NameText;
    var name := NameText(w) + rest;
    WrittenSplits(w, rest);
    FirstOfName(w, rest);
    OptionIsRead(w.digits, w.option, name);
    NameIsRead(ToSignedChar(Leading(w.digits, 0)), if w.option == "" then ' ' else w.option[0],
               w.digits + w.option, w, rest);
  }

  lemma WrittenSplits(w: Written, rest: string)
    ensures WrittenText(w) + rest == w.digits + (w.option + (NameText(w) + rest))
    ensures WrittenText(w) + rest == w.digits + w.option + (NameText(w) + rest)
    ensures |WrittenText(w)| == |w.digits + w.option| + |NameText(w)|
    ensures (WrittenText(w) + rest)[|WrittenText(w)|..] == rest
  {
    hide NameText;
    ConcatAssociates(w.option, NameText(w), rest);
    ConcatAssociates(w.digits, w.option + NameText(w), rest);
    ConcatAssociates(w.digits, w.option, NameText(w) + rest);
  }

  lemma FirstOfName(w: Written, rest: string)
    requires IsWritten(w) && EndsThere(w, rest)
    ensures First(NameText(w) + rest) == if w.named then ':' else First(rest)
    ensures First(w.option + (NameText(w) + rest)) ==
      if w.option != "" then w.option[0] else if w.named then ':' else First(rest)
  {
    FirstOfTwo(NameText(w), rest);
    FirstOfTwo(w.option, NameText(w) + rest);
  }

  /** The number that one, two or three digits denote. */
  lemma DigitsMean(a: nat, b: nat, c: nat)
    requires a < 10 && b < 10 && c < 10
    ensures Leading(['0' + a as char], 0) == a
    ensures Leading(['0' + a as char, '0' + b as char], 0) == 10 * a + b
    ensures Leading(['0' + a as char, '0' + b as char, '0' + c as char], 0) == 100 * a + 10 * b + c
  {
    var x, y, z := '0' + a as char, '0' + b as char, '0' + c as char;
    assert forall acc: nat :: Leading([], acc) == acc;
    LeadingStep(x, [], 0);
    LeadingStep(x, [y], 0);
    LeadingStep(y, [], a);
    LeadingStep(x, [y, z], 0);
    LeadingStep(y, [z], a);
    LeadingStep(z, [], 10 * a + b);
    hide Leading;
    assert [x] + [] == [x] && [y] + [] == [y] && [z] + [] == [z];
    assert [x, y] == [x] + [y] && [x, y, z] == [x] + [y, z] && [y, z] == [y] + [z];
  }

  /** In a template: the text before a parameter and the parameter make an element, its name is entered if
      its number is not negative, and parsing goes on behind it with no text before. */
  lemma WrittenIsParsed(w: Written, rest: string, before: string)
    requires IsWritten(w) && EndsThere(w, rest)
    ensures var num := ToSignedChar(Leading(w.digits, 0));
      var later := ParseFrom(rest, "");
      ParseFrom("%" + (WrittenText(w) + rest), before) ==
        Parsed([Element(before, if w.option == "" then ' ' else w.option[0], num)] + later.elems,
               (if w.named && num >= 0 then [Naming(num, w.name)] else []) + later.namings)
  {
    hide ReadParameter, WrittenText, ToSignedChar, Leading, IsWritten, EndsThere, ParseFrom, IsDigit;
    WrittenIsRead(w, rest);
    ParseParameterText(WrittenText(w) + rest, before);
  }

  // ----- names and positions -----

  /** A name or a position that is used again stands for the last use; positions never named have no name. */
  lemma {:induction false} LastNamingWins(names: seq<string>, nums: map<string, nat>, namings: seq<Naming>, j: nat)
    requires j < |namings|
    ensures (forall i :: j < i < |namings| ==> namings[i].num != namings[j].num) ==>
      namings[j].num < |NamesAfter(names, namings)| && NamesAfter(names, namings)[namings[j].num] == namings[j].name
    ensures (forall i :: j < i < |namings| ==> namings[i].name != namings[j].name) ==>
      namings[j].name in NumsAfter(nums, namings) && NumsAfter(nums, namings)[namings[j].name] == namings[j].num
  {
    hide NamesAfter, NumsAfter;
    var front, last := namings[..|namings| - 1], namings[|namings| - 1];
    assert namings == front + [last];
    NamedSnoc(names, nums, front, last);
    if j < |front| {
      LastNamingWins(names, nums, front, j);
    }
  }

  lemma {:induction false} UnnamedStays(names: seq<string>, namings: seq<Naming>, n: nat)
    requires forall i :: 0 <= i < |namings| ==> namings[i].num != n
    ensures var after := NamesAfter(names, namings);
      |names| <= |after| && (n < |after| ==> after[n] == if n < |names| then names[n] else "")
  {
    if namings != [] {
      UnnamedStays(names, namings[..|namings| - 1], n);
    }
  }

  // ----- one parameter -----

  /** What is written for a value: NULL for an SQL null; a processed value as it is; with option q quotes and
      escaping, and with Q quotes alone, where the type of the value takes them; else the value as it is. */
  lemma WrittenFor(escape: string -> string, option: char, p: Param)
    ensures p.isNull ==> Rendered(escape, option, p) == "NULL"
    ensures !p.isNull && p.processed ==> Rendered(escape, option, p) == p.data
    ensures !p.isNull && !p.processed && option == 'q' && p.quoteQ && p.escapeQ ==>
      Rendered(escape, option, p) == "'" + escape(p.data) + "'"
    ensures !p.isNull && !p.processed && option == 'q' && p.quoteQ && !p.escapeQ ==>
      Rendered(escape, option, p) == "'" + p.data + "'"
    ensures !p.isNull && !p.processed && option == 'q' && !p.quoteQ && p.escapeQ ==>
      Rendered(escape, option, p) == escape(p.data)
    ensures !p.isNull && !p.processed && option == 'q' && !p.quoteQ && !p.escapeQ ==>
      Rendered(escape, option, p) == p.data
    ensures !p.isNull && !p.processed && option == 'Q' ==>
      Rendered(escape, option, p) == if p.quoteQ then "'" + p.data + "'" else p.data
    ensures !p.isNull && option != 'q' && option != 'Q' ==> Rendered(escape, option, p) == p.data
  {
  }

  /** A template of one parameter: the caller's value counts before the default; what is written stands
      between the texts; a value of a bound list, or a default, is replaced by what was written and is not
      processed again; a parameter that neither list has ends the text with ERROR. */
  lemma OneParameter(escape: string -> string, before: string, option: char, n: nat, tail: string,
                     params: seq<Param>, bound: bool, defaults: seq<Param>)
    requires n <= 127
    ensures var out := ProcFrom(escape, [Element(before, option, n), Element(tail, ' ', -1)],
                                Env(params, bound, defaults));
      if n < |params| then
        && out.ok && out.text == before + Rendered(escape, option, params[n]) + tail
        && out.env.defaults == defaults && out.env.bound == bound
        && (!bound || params[n].isNull ==> out.env.params == params)
        && (bound && !params[n].isNull ==>
              && |out.env.params| == |params|
              && (forall k :: 0 <= k < |params| && k != n ==> out.env.params[k] == params[k])
              && out.env.params[n].data == Rendered(escape, option, params[n])
              && out.env.params[n].processed && !out.env.params[n].isNull)
      else if n < |defaults| then
        && out.ok && out.text == before + Rendered(escape, option, defaults[n]) + tail
        && out.env.params == params && out.env.bound == bound
        && (defaults[n].isNull ==> out.env.defaults == defaults)
        && (!defaults[n].isNull ==>
              && |out.env.defaults| == |defaults|
              && (forall k :: 0 <= k < |defaults| && k != n ==> out.env.defaults[k] == defaults[k])
              && out.env.defaults[n].data == Rendered(escape, option, defaults[n])
              && out.env.defaults[n].processed && !out.env.defaults[n].isNull)
      else !out.ok && out.text == before + " ERROR" && out.env == Env(params, bound, defaults)
  {
    var env := Env(params, bound, defaults);
    var last := [Element(tail, ' ', -1)];
    assert [Element(before, option, n)] + last == [Element(before, option, n), Element(tail, ' ', -1)];
    ProcCons(escape, Element(before, option, n), last, env);
    if env.Has(n) {
      OnlyText(escape, tail, env.Use(escape, option, n));
    }
    hide ProcFrom;
    assert n < |params| && bound && params[n].isNull ==> params[n := params[n]] == params;
    assert n < |defaults| && defaults[n].isNull ==> defaults[n := defaults[n]] == defaults;
  }

  lemma OnlyText(escape: string -> string, tail: string, env: Env)
    ensures ProcFrom(escape, [Element(tail, ' ', -1)], env) == Output(tail, env, true)
  {
    assert [Element(tail, ' ', -1)][1..] == [] && tail + "" == tail;
  }
}
