/** Template queries: Query::parse, proc and pprepare of mysqlpp/lib/query.cpp, with the parameter
    lists of mysqlpp/lib/qparms.h and qparms.cpp.

    A template is read up to its first NUL character, or to its end.  The routine that escapes a
    string belongs to the database driver and is an arbitrary function here. */
module TemplateQuery {
  import opened Basics

  /** The character a C string pointer points at. */
  function First(s: string): char {
    if s == [] then '\0' else s[0]
  }

  /** The characters that may occur in the name of a parameter. */
  predicate IsNameChar(c: char) {
    IsDigit(c) || 'a' <= c <= 'z' || 'A' <= c <= 'Z' || c == '_'
  }

  /** The conversion to signed char. */
  function ToSignedChar(n: nat): int {
    if n % 256 < 128 then n % 256 else n % 256 - 256
  }

  /** A piece of a parsed template: literal text, then the parameter that follows it (none if num < 0). */
  datatype Element = Element(before: string, option: char, num: int)

  /** One use of a name for a position. */
  datatype Naming = Naming(num: nat, name: string)

  // ----- the grammar of a parameter -----

  function DigitRun(s: string, limit: nat): (n: nat)
    ensures n <= limit && n <= |s|
  {
    if limit == 0 || !IsDigit(First(s)) then 0 else 1 + DigitRun(s[1..], limit - 1)
  }

  function NameRun(s: string): (n: nat)
    ensures n <= |s|
  {
    if !IsNameChar(First(s)) then 0 else 1 + NameRun(s[1..])
  }

  /** What follows the percent sign of a parameter, and how many characters it takes. */
  datatype Parameter = Parameter(num: int, option: char, named: bool, name: string, used: nat)

  function ReadParameter(s: string): (p: Parameter)
    requires IsDigit(First(s))
    ensures 1 <= p.used <= |s|
  {
    var d := DigitRun(s, 3);
    var num, c := ToSignedChar(Leading(s[..d], 0)), First(s[d..]);
    if c == 'q' || c == 'Q' then ReadName(num, c, s, d + 1) else ReadName(num, ' ', s, d)
  }

  /** The optional name, from position o on. */
  function ReadName(num: int, option: char, s: string, o: nat): (p: Parameter)
    requires o <= |s|
    ensures o <= p.used <= |s|
  {
    if First(s[o..]) != ':' then Parameter(num, option, false, "", o)
    else
      var e := o + 1 + NameRun(s[o + 1..]);
      Parameter(num, option, true, s[o + 1..e], if First(s[e..]) == ':' then e + 1 else e)
  }

  datatype Parsed = Parsed(elems: seq<Element>, namings: seq<Naming>)

  /** The elements of a template, `before` being the literal text gathered so far. */
  function ParseFrom(s: string, before: string): Parsed
    decreases |s|
  {
    if First(s) == '\0' then Parsed([Element(before, ' ', -1)], [])
    else if s[0] != '%' then ParseFrom(s[1..], before + [s[0]])
    else if First(s[1..]) == '%' then ParseFrom(s[2..], before + "%")
    else if IsDigit(First(s[1..])) then
      var p := ReadParameter(s[1..]);
      var later := ParseFrom(s[1 + p.used..], "");
      Parsed([Element(before, p.option, p.num)] + later.elems, Namings(p) + later.namings)
    else ParseFrom(s[1..], before + "%")
  }

  function Namings(p: Parameter): seq<Naming> {
    if p.named && p.num >= 0 then [Naming(p.num, p.name)] else []
  }

  // ----- parsed_names_ and parsed_nums_ -----

  function Padded(names: seq<string>, n: nat): (padded: seq<string>)
    ensures |padded| == if n <= |names| then |names| else n
    ensures forall j :: 0 <= j < |padded| ==> padded[j] == if j < |names| then names[j] else ""
  {
    if n <= |names| then names else names + seq(n - |names|, _ => "")
  }

  function NamesAfter(names: seq<string>, namings: seq<Naming>): seq<string> {
    if namings == [] then names
    else
      var last := namings[|namings| - 1];
      Padded(NamesAfter(names, namings[..|namings| - 1]), last.num + 1)[last.num := last.name]
  }

  function NumsAfter(nums: map<string, nat>, namings: seq<Naming>): map<string, nat> {
    if namings == [] then nums
    else
      var last := namings[|namings| - 1];
      NumsAfter(nums, namings[..|namings| - 1])[last.name := last.num]
  }

  /** The two tables agree with every naming of the template, in both directions. */
  predicate MutuallyInverse(names: seq<string>, nums: map<string, nat>, namings: seq<Naming>) {
    forall j :: 0 <= j < |namings| ==>
      && namings[j].num < |names| && names[namings[j].num] == namings[j].name
      && namings[j].name in nums && nums[namings[j].name] == namings[j].num
  }

  predicate OneToOne(namings: seq<Naming>) {
    forall i, j :: 0 <= i < |namings| && 0 <= j < |namings| ==>
      (namings[i].num == namings[j].num <==> namings[i].name == namings[j].name)
  }

  /** The tables are mutually inverse exactly when names and positions are one-to-one. */
  lemma TablesInverseIffOneToOne(names: seq<string>, nums: map<string, nat>, namings: seq<Naming>)
    ensures MutuallyInverse(NamesAfter(names, namings), NumsAfter(nums, namings), namings) <==> OneToOne(namings)
  {
    if OneToOne(namings) {
      OneToOneInverts(names, nums, namings);
    }
  }

  lemma {:induction false} OneToOneInverts(names: seq<string>, nums: map<string, nat>, namings: seq<Naming>)
    requires OneToOne(namings)
    ensures MutuallyInverse(NamesAfter(names, namings), NumsAfter(nums, namings), namings)
  {
    if namings != [] {
      hide MutuallyInverse, OneToOne, NamesAfter, NumsAfter;
      var front, last := namings[..|namings| - 1], namings[|namings| - 1];
      assert namings == front + [last];
      OneToOneFront(front, last);
      OneToOneInverts(names, nums, front);
      NamedSnoc(names, nums, front, last);
      OneMoreInverts(NamesAfter(names, front), NumsAfter(nums, front), front, last);
    }
  }

  lemma OneToOneFront(front: seq<Naming>, last: Naming)
    requires OneToOne(front + [last])
    ensures OneToOne(front)
  {
    assert forall j :: 0 <= j < |front| ==> (front + [last])[j] == front[j];
  }

  lemma NamedSnoc(names: seq<string>, nums: map<string, nat>, front: seq<Naming>, last: Naming)
    ensures NamesAfter(names, front + [last]) == Padded(NamesAfter(names, front), last.num + 1)[last.num := last.name]
    ensures NumsAfter(nums, front + [last]) == NumsAfter(nums, front)[last.name := last.num]
  {
    assert (front + [last])[..|front|] == front;
  }

  /** One naming more keeps the tables inverse, if it is consistent with those before it. */
  lemma OneMoreInverts(names: seq<string>, nums: map<string, nat>, front: seq<Naming>, last: Naming)
    requires MutuallyInverse(names, nums, front) && OneToOne(front + [last])
    ensures MutuallyInverse(Padded(names, last.num + 1)[last.num := last.name], nums[last.name := last.num],
                            front + [last])
  {
    var all := front + [last];
    forall j | 0 <= j < |front|
      ensures all[j] == front[j] && (front[j].num == last.num <==> front[j].name == last.name)
    {
      assert all[|front|] == last;
    }
  }

  // ----- rendering -----

  /** A parameter value, as a string, and what its type says of it. */
  datatype Param = Param(data: string, isNull: bool, quoteQ: bool, escapeQ: bool, processed: bool)

  function Quoted(quote: bool, text: string): string {
    if quote then "'" + text + "'" else text
  }

  /** What a parameter contributes to the query. */
  function Rendered(escape: string -> string, option: char, p: Param): string {
    if p.isNull then "NULL"
    else if p.processed then p.data
    else if option == 'q' then Quoted(p.quoteQ, if p.escapeQ then escape(p.data) else p.data)
    else Quoted(option == 'Q' && p.quoteQ, p.data)
  }

  /** What becomes of a parameter of a bound list, which is rendered in place. */
  function Settled(escape: string -> string, option: char, p: Param): Param {
    if p.isNull || p.processed then p
    else if option == 'q' || (option == 'Q' && p.quoteQ) then
      Param(Rendered(escape, option, p), false, true, true, true)
    else p.(processed := true)
  }

  /** The values at hand: the list passed by the caller, which may be bound to a query, and the
      query's own defaults, which are. */
  datatype Env = Env(params: seq<Param>, bound: bool, defaults: seq<Param>) {

    predicate Has(num: nat) {
      num < |params| || num < |defaults|
    }

    function Get(num: nat): Param
      requires Has(num)
    {
      if num < |params| then params[num] else defaults[num]
    }

    /** The values after the one at `num` was used. */
    function Use(escape: string -> string, option: char, num: nat): Env
      requires Has(num)
    {
      if num < |params| then
        if bound then this.(params := params[num := Settled(escape, option, params[num])]) else this
      else this.(defaults := defaults[num := Settled(escape, option, defaults[num])])
    }
  }

  /** Text written, values left behind, and whether every parameter was found. */
  datatype Output = Output(text: string, env: Env, ok: bool)

  /** The evaluation of an element list. */
  function ProcFrom(escape: string -> string, elems: seq<Element>, env: Env): Output
    decreases |elems|
  {
    if elems == [] then Output("", env, true)
    else
      var e := elems[0];
      if e.num < 0 then
        var later := ProcFrom(escape, elems[1..], env);
        later.(text := e.before + later.text)
      else if !env.Has(e.num) then Output(e.before + " ERROR", env, false)
      else
        var later := ProcFrom(escape, elems[1..], env.Use(escape, e.option, e.num));
        later.(text := e.before + Rendered(escape, e.option, env.Get(e.num)) + later.text)
  }

  /** The reference: one pass over the template text, from left to right, that copies the text and puts
      in each parameter where it is met. */
  function Substitute(escape: string -> string, s: string, env: Env): Output
    decreases |s|
  {
    if First(s) == '\0' then Output("", env, true)
    else if s[0] == '%' && First(s[1..]) == '%' then
      var later := Substitute(escape, s[2..], env);
      later.(text := "%" + later.text)
    else if s[0] == '%' && IsDigit(First(s[1..])) then
      var p := ReadParameter(s[1..]);
      var rest := s[1 + p.used..];
      if p.num < 0 then Substitute(escape, rest, env)
      else if !env.Has(p.num) then Output(" ERROR", env, false)
      else
        var later := Substitute(escape, rest, env.Use(escape, p.option, p.num));
        later.(text := Rendered(escape, p.option, env.Get(p.num)) + later.text)
    else
      var later := Substitute(escape, s[1..], env);
      later.(text := [s[0]] + later.text)
  }

  function Prepend(before: string, out: Output): Output {
    out.(text := before + out.text)
  }

  /** Compiling a template and evaluating the result writes exactly what direct substitution writes,
      leaves the same values behind and fails on the same parameter. */
  lemma {:induction false} CompiledIsSubstituted(escape: string -> string, s: string, before: string, env: Env)
    ensures ProcFrom(escape, ParseFrom(s, before).elems, env) == Prepend(before, Substitute(escape, s, env))
    decreases |s|
  {
    if First(s) == '\0' {
      assert before + "" + "" == before;
    } else if s[0] != '%' {
      CompiledIsSubstituted(escape, s[1..], before + [s[0]], env);
      PrependMore(before, [s[0]], Substitute(escape, s[1..], env));
    } else if First(s[1..]) == '%' {
      CompiledIsSubstituted(escape, s[2..], before + "%", env);
      PrependMore(before, "%", Substitute(escape, s[2..], env));
    } else if IsDigit(First(s[1..])) {
      ParameterIsSubstituted(escape, s, before, env);
    } else {
      CompiledIsSubstituted(escape, s[1..], before + "%", env);
      PrependMore(before, "%", Substitute(escape, s[1..], env));
    }
  }

  lemma PrependMore(a: string, b: string, out: Output)
    ensures Prepend(a + b, out) == Prepend(a, Prepend(b, out))
  {
    assert (a + b) + out.text == a + (b + out.text);
  }

  lemma {:induction false} ParameterIsSubstituted(escape: string -> string, s: string, before: string, env: Env)
    requires First(s) == '%' && First(s[1..]) != '%' && IsDigit(First(s[1..]))
    ensures ProcFrom(escape, ParseFrom(s, before).elems, env) == Prepend(before, Substitute(escape, s, env))
    decreases |s|, 0
  {
    var p := ReadParameter(s[1..]);
    var rest := s[1 + p.used..];
    var e := Element(before, p.option, p.num);
    var later := ParseFrom(rest, "");
    assert ParseFrom(s, before).elems == [e] + later.elems;
    ProcCons(escape, e, later.elems, env);
    hide ParseFrom, ReadParameter, Rendered, Env.Use, ProcFrom;
    if p.num < 0 {
      CompiledIsSubstituted(escape, rest, "", env);
      PrependNothing(Substitute(escape, rest, env));
    } else if env.Has(p.num) {
      var env' := env.Use(escape, p.option, p.num);
      CompiledIsSubstituted(escape, rest, "", env');
      PrependNothing(Substitute(escape, rest, env'));
      PrependMore(before, Rendered(escape, p.option, env.Get(p.num)), Substitute(escape, rest, env'));
    }
  }

  lemma PrependNothing(out: Output)
    ensures Prepend("", out) == out
  {
    assert "" + out.text == out.text;
  }

  lemma NullStays(escape: string -> string, option: char, p: Param)
    requires p.isNull
    ensures Rendered(escape, option, p) == "NULL" && Settled(escape, option, p) == p
  {
  }

  lemma ProcCons(escape: string -> string, e: Element, elems: seq<Element>, env: Env)
    ensures ProcFrom(escape, [e] + elems, env) ==
      if e.num < 0 then Prepend(e.before, ProcFrom(escape, elems, env))
      else if !env.Has(e.num) then Output(e.before + " ERROR", env, false)
      else Prepend(e.before + Rendered(escape, e.option, env.Get(e.num)),
                   ProcFrom(escape, elems, env.Use(escape, e.option, e.num)))
  {
    assert ([e] + elems)[1..] == elems;
  }

  /** An evaluation under way, `text` having been written, before and after one more element. */
  lemma ElementDone(escape: string -> string, text: string, e: Element, rest: seq<Element>, env: Env, out: Output)
    requires Prepend(text, ProcFrom(escape, [e] + rest, env)) == out
    ensures e.num < 0 ==> Prepend(text + e.before, ProcFrom(escape, rest, env)) == out
    ensures e.num >= 0 && !env.Has(e.num) ==> out == Output(text + e.before + " ERROR", env, false)
    ensures e.num >= 0 && env.Has(e.num) ==>
      Prepend(text + e.before + Rendered(escape, e.option, env.Get(e.num)),
              ProcFrom(escape, rest, env.Use(escape, e.option, e.num))) == out
  {
    ProcCons(escape, e, rest, env);
    hide ProcFrom, Rendered, Env.Get, Env.Use;
    if e.num < 0 {
      PrependMore(text, e.before, ProcFrom(escape, rest, env));
    } else if !env.Has(e.num) {
      ConcatAssociates(text, e.before, " ERROR");
    } else {
      var more := Rendered(escape, e.option, env.Get(e.num));
      ConcatAssociates(text, e.before, more);
      PrependMore(text, e.before + more, ProcFrom(escape, rest, env.Use(escape, e.option, e.num)));
    }
  }

  lemma NothingLeft(escape: string -> string, text: string, env: Env, out: Output)
    requires Prepend(text, ProcFrom(escape, [], env)) == out
    ensures out == Output(text, env, true)
  {
    assert text + "" == text;
  }

  /** Evaluation succeeds exactly when every parameter is at hand; it never changes how many there are,
      and leaves a list that is not bound to a query as it is. */
  lemma {:induction false} ProcSucceeds(escape: string -> string, elems: seq<Element>, env: Env)
    ensures var out := ProcFrom(escape, elems, env);
      && (out.ok <==> forall j :: 0 <= j < |elems| && elems[j].num >= 0 ==> env.Has(elems[j].num))
      && |out.env.params| == |env.params| && |out.env.defaults| == |env.defaults|
      && out.env.bound == env.bound && (!env.bound ==> out.env.params == env.params)
    decreases |elems|
  {
    if elems != [] {
      var e := elems[0];
      assert forall j :: 0 < j < |elems| ==> elems[j] == elems[1..][j - 1];
      if e.num < 0 {
        ProcSucceeds(escape, elems[1..], env);
      } else if env.Has(e.num) {
        ProcSucceeds(escape, elems[1..], env.Use(escape, e.option, e.num));
      }
    }
  }

  /** A parameter that evaluation will not change any more. */
  predicate IsFixed(p: Param) {
    p.isNull || p.processed
  }

  lemma {:induction false} FixedStays(escape: string -> string, elems: seq<Element>, env: Env, k: nat)
    ensures var env' := ProcFrom(escape, elems, env).env;
      && |env'.params| == |env.params| && |env'.defaults| == |env.defaults| && env'.bound == env.bound
      && (k < |env.params| && (!env.bound || IsFixed(env.params[k])) ==> env'.params[k] == env.params[k])
      && (k < |env.defaults| && IsFixed(env.defaults[k]) ==> env'.defaults[k] == env.defaults[k])
    decreases |elems|
  {
    if elems != [] {
      var e := elems[0];
      if e.num < 0 {
        FixedStays(escape, elems[1..], env, k);
      } else if env.Has(e.num) {
        FixedStays(escape, elems[1..], env.Use(escape, e.option, e.num), k);
      }
    }
  }

  /** Building the query a second time, with the values the first time left behind, gives the same text
      and changes nothing more, although bound parameters are rendered in place. */
  lemma {:induction false} SecondTimeSameText(escape: string -> string, elems: seq<Element>, env: Env)
    ensures var out := ProcFrom(escape, elems, env);
      ProcFrom(escape, elems, out.env) == out
    decreases |elems|
  {
    if elems != [] {
      var e := elems[0];
      if e.num < 0 {
        SecondTimeSameText(escape, elems[1..], env);
      } else if env.Has(e.num) {
        var env' := env.Use(escape, e.option, e.num);
        SecondTimeSameText(escape, elems[1..], env');
        FixedStays(escape, elems[1..], env', e.num);
        UseTwice(escape, e.option, e.num, env, ProcFrom(escape, elems[1..], env').env);
      }
    }
  }

  lemma UseTwice(escape: string -> string, option: char, num: nat, env: Env, final: Env)
    requires env.Has(num) && final.bound == env.bound
    requires |final.params| == |env.params| && |final.defaults| == |env.defaults|
    requires final.Get(num) == env.Use(escape, option, num).Get(num)
    ensures Rendered(escape, option, final.Get(num)) == Rendered(escape, option, env.Get(num))
    ensures final.Use(escape, option, num) == final
  {
    var p := env.Get(num);
    assert IsFixed(Settled(escape, option, p));
    if num < |env.params| {
      if env.bound {
        assert final.params[num := final.params[num]] == final.params;
      }
    } else {
      assert final.defaults[num := final.defaults[num]] == final.defaults;
    }
  }

  // ----- the query and its parameter lists -----

  /** A copy of a value does not count as processed. */
  function Copied(p: Param): Param {
    p.(processed := false)
  }

  function Copies(items: seq<Param>): (copies: seq<Param>)
    ensures |copies| == |items|
    ensures forall j :: 0 <= j < |items| ==> copies[j] == Copied(items[j])
  {
    seq(|items|, j requires 0 <= j < |items| => Copied(items[j]))
  }

  function Blanks(n: nat): (blanks: seq<Param>)
    ensures |blanks| == n
    ensures forall j :: 0 <= j < n ==> blanks[j] == Param("", false, true, true, false)
  {
    seq(n, _ => Param("", false, true, true, false))
  }

  lemma CopiesSnoc(items: seq<Param>, p: Param)
    ensures Copies(items + [p]) == Copies(items) + [Copied(p)]
    ensures Copies(Copies(items)) == Copies(items)
  {
  }

  /** The values of a list that grew: some may be copies of what they were. */
  ghost predicate GrewFrom(was: seq<Param>, now: seq<Param>) {
    && |was| <= |now|
    && forall k :: 0 <= k < |was| ==> now[k] == was[k] || now[k] == Copied(was[k])
  }

  class SQLQueryParms {
    /** Whether the list has a parent query. */
    const bound: bool
    var items: seq<Param>
    /** How many values the vector has room for.  When it needs more it moves, and copies its values. */
    var capacity: nat

    constructor (bound: bool)
      ensures this.bound == bound && items == [] && capacity == 0
    {
      this.bound, items, capacity := bound, [], 0;
    }

    /** Room for n values; `extra` is what the vector takes beyond that if it has to move. */
    method Reserve(n: nat, extra: nat)
      requires n >= |items|
      modifies this
      ensures items == if n > old(capacity) then Copies(old(items)) else old(items)
      ensures capacity == if n > old(capacity) then n + extra else old(capacity)
    {
      if n > capacity {
        items, capacity := Copies(items), n + extra;
      }
    }

    /** push_back stores a copy. */
    method Push(p: Param, extra: nat)
      modifies this
      ensures items == (if |old(items)| >= old(capacity) then Copies(old(items)) else old(items)) + [Copied(p)]
      ensures GrewFrom(old(items), items)
      ensures items[|items| - 1] == p.(processed := false)
    {
      Reserve(|items| + 1, extra);
      items := items + [Copied(p)];
    }

    /** operator[]: the list grows, by empty strings, to hold the element asked for. */
    method At(n: nat, extra: nat) returns (p: Param)
      modifies this
      ensures items ==
        if n < |old(items)| then old(items)
        else (if n >= old(capacity) then Copies(old(items)) else old(items)) + Blanks(n + 1 - |old(items)|)
      ensures GrewFrom(old(items), items)
      ensures forall j :: |old(items)| <= j < |items| ==> items[j] == Param("", false, true, true, false)
      ensures p == items[n]
    {
      if n >= |items| {
        Reserve(n + 1, extra);
        items := items + Blanks(n + 1 - |items|);
      }
      p := items[n];
    }

    /** operator+: copies of this list, then of the elements of the other beyond its length. */
    method Plus(other: SQLQueryParms, extra: nat) returns (sum: SQLQueryParms)
      ensures fresh(sum) && sum.bound == bound
      ensures sum.items == Copies(if |other.items| <= |items| then items else items + other.items[|items|..])
    {
      sum := new SQLQueryParms(bound);
      sum.items, sum.capacity := Copies(items), |items|;
      if |other.items| <= |items| {
        return;
      }
      var i := |items|;
      assert items + other.items[|items|..i] == items;
      while i < |other.items|
        invariant |items| <= i <= |other.items|
        invariant sum.items == Copies(items + other.items[|items|..i])
      {
        ghost var sofar := items + other.items[|items|..i];
        var next := other.items[i];
        assert items + other.items[|items|..i + 1] == sofar + [next];
        CopiesSnoc(sofar, next);
        hide Copies;
        sum.Push(next, extra);
        i := i + 1;
      }
      assert other.items[|items|..i] == other.items[|items|..];
    }
  }

  class Query {
    const escape: string -> string
    const templateDefaults: SQLQueryParms
    var sbuffer: string
    var parseElems: seq<Element>
    var parsedNames: seq<string>
    var parsedNums: map<string, nat>

    constructor (escape: string -> string, text: string)
      ensures this.escape == escape && sbuffer == text
      ensures fresh(templateDefaults) && templateDefaults.bound && templateDefaults.items == []
      ensures parseElems == [] && parsedNames == [] && parsedNums == map[]
    {
      this.escape := escape;
      templateDefaults := new SQLQueryParms(true);
      sbuffer, parseElems, parsedNames, parsedNums := text, [], [], map[];
    }

    /** The character at a cursor of a NUL-terminated copy of s. */
    static function Char(s: string, i: nat): char
      requires i <= |s|
    {
      if i < |s| then s[i] else '\0'
    }

    /** parse, the position of a parameter: up to three digits, converted by atoi to a signed char. */
    static method ParseNumber(s: string, start: nat) returns (n: int, i: nat)
      requires start <= |s| && IsDigit(Char(s, start))
      ensures i == start + DigitRun(s[start..], 3) <= |s|
      ensures n == ToSignedChar(Leading(s[start..i], 0))
    {
      i := start + 1;
      var num := [s[start]];
      if IsDigit(Char(s, i)) {
        num := num + [s[i]];
        i := i + 1;
        if IsDigit(Char(s, i)) {
          num := num + [s[i]];
          i := i + 1;
        }
      }
      ThreeDigits(s, start);
      assert num == s[start..i];
      n := ToSignedChar(Leading(num, 0));
    }

    /** parse, the name of a parameter: the name characters after its colon. */
    static method ParseName(s: string, colon: nat) returns (name: string, i: nat)
      requires colon <= |s|
      ensures i == colon + NameRun(s[colon..]) <= |s|
      ensures name == s[colon..i]
    {
      hide NameRun, IsNameChar;
      name, i := "", colon;
      while IsNameChar(Char(s, i))
        invariant colon <= i <= |s|
        invariant name == s[colon..i]
        invariant NameRun(s[colon..]) == i - colon + NameRun(s[i..])
        decreases |s| - i
      {
        NameRunFrom(s, i);
        name := name + [s[i]];
        i := i + 1;
      }
      NameRunFrom(s, i);
    }

    /** parse, from the first digit of a parameter to its end. */
    static method ParseParameter(s: string, start: nat) returns (p: Parameter)
      requires start <= |s| && IsDigit(Char(s, start))
      ensures p == ReadParameter(s[start..])
    {
      hide ReadParameter, ReadName, DigitRun, NameRun, Leading, ToSignedChar, IsDigit;
      var n, i := ParseNumber(s, start);
      ReadParameterAt(s, start);
      var option := ' ';
      if Char(s, i) == 'q' || Char(s, i) == 'Q' {
        option := s[i];
        i := i + 1;
      }
      ReadNameAt(n, option, s, start, i - start);
      if Char(s, i) != ':' {
        return Parameter(n, option, false, "", i - start);
      }
      i := i + 1;
      var name;
      name, i := ParseName(s, i);
      if Char(s, i) == ':' {
        i := i + 1;
      }
      p := Parameter(n, option, true, name, i - start);
    }

    /** What parse has entered so far. */
    function State(): Compiled
      reads this
    {
      Compiled(parseElems, parsedNames, parsedNums)
    }

    /** parse, what is done with a parameter once it is read: its name, if it has one, is entered in both
        tables, and the parameter is saved with the text before it. */
    method Save(str: string, p: Parameter)
      modifies this
      ensures sbuffer == old(sbuffer)
      ensures State() == With(old(State()), Parsed([Element(str, p.option, p.num)], Namings(p)))
    {
      TablesGrow(parsedNames, parsedNums, Namings(p));
      if p.named && p.num >= 0 {
        var n: nat := p.num;
        parsedNames := Padded(parsedNames, n + 1)[n := p.name];
        parsedNums := parsedNums[p.name := n];
      }
      parseElems := parseElems + [Element(str, p.option, p.num)];
    }

    /** parse: compiles the text of the query, up to its first NUL, into further elements. */
    method Parse()
      modifies this
      ensures sbuffer == old(sbuffer)
      ensures var parsed := ParseFrom(sbuffer, "");
        && parseElems == old(parseElems) + parsed.elems
        && parsedNames == NamesAfter(old(parsedNames), parsed.namings)
        && parsedNums == NumsAfter(old(parsedNums), parsed.namings)
    {
      var str, s := "", sbuffer;
      ghost var end := With(State(), ParseFrom(sbuffer, ""));
      var i := 0;
      ToParseFromStart(s);
      WithMeans(State(), ParseFrom(sbuffer, ""));
      hide With, ToParse, ReadParameter, IsDigit, Namings, NamesAfter, NumsAfter, ParseFrom;
      while Char(s, i) != '\0'
        invariant i <= |s| && sbuffer == s
        invariant With(State(), ToParse(s, i, str)) == end
        decreases |s| - i
      {
        if Char(s, i) == '%' {
          if Char(s, i + 1) == '%' {
            LiteralPercents(s, i, str);
            str := str + "%";
            i := i + 2;
          } else if IsDigit(Char(s, i + 1)) {
            var p := ParseParameter(s, i + 1);
            AfterParameter(s, i, str, State());
            Save(str, p);
            i, str := i + 1 + p.used, "";
          } else {
            LiteralCharacter(s, i, str);
            str := str + "%";
            i := i + 1;
          }
        } else {
          LiteralCharacter(s, i, str);
          str := str + [s[i]];
          i := i + 1;
        }
      }
      AtTheEnd(s, i, str, State());
      parseElems := parseElems + [Element(str, ' ', -1)];
    }

    /** pprepare: renders the parameter num of a list, in place if `replace`. */
    method PPrepare(option: char, list: SQLQueryParms, num: nat, replace: bool) returns (text: string)
      requires num < |list.items| && !list.items[num].isNull
      modifies list`items
      ensures text == Rendered(escape, option, old(list.items)[num])
      ensures list.items ==
        if replace then old(list.items)[num := Settled(escape, option, old(list.items)[num])] else old(list.items)
    {
      var param := list.items[num];
      if param.processed {
        return param.data;
      }
      if option == 'q' {
        text := if param.quoteQ then "'" else "";
        if param.escapeQ {
          text := text + escape(param.data);
        } else {
          text := text + param.data;
        }
        if param.quoteQ {
          text := text + "'";
        }
        if replace {
          list.items := list.items[num := Param(text, false, true, true, true)];
        }
      } else if option == 'Q' && param.quoteQ {
        text := "'" + param.data + "'";
        if replace {
          list.items := list.items[num := Param(text, false, true, true, true)];
        }
      } else {
        text := param.data;
        if replace {
          list.items := list.items[num := param.(processed := true)];
        }
      }
    }

    /** The two lists as values; the defaults count only where the caller's list is another one. */
    ghost predicate Holds(p: SQLQueryParms, env: Env)
      reads p, templateDefaults
    {
      && p.items == env.params && p.bound == env.bound
      && if p == templateDefaults then |env.defaults| == |env.params| else templateDefaults.items == env.defaults
    }

    /** proc, one parameter: looked up in the caller's list, then in the defaults. */
    method UseParameter(option: char, num: nat, p: SQLQueryParms, ghost env: Env) returns (found: bool, text: string)
      requires templateDefaults.bound && Holds(p, env)
      modifies p`items, templateDefaults`items
      ensures found == env.Has(num)
      ensures found ==> text == Rendered(escape, option, env.Get(num)) && Holds(p, env.Use(escape, option, num))
      ensures !found ==> Holds(p, env)
    {
      found, text := true, "NULL";
      var c := p;
      if num >= |p.items| {
        if num >= |templateDefaults.items| {
          return false, "";
        }
        c := templateDefaults;
      }
      var param := c.items[num];
      hide Rendered, Settled;
      if param.isNull {
        NullStays(escape, option, param);
        assert c.items[num := param] == c.items;
      } else {
        text := PPrepare(option, c, num, c.bound);
      }
    }

    /** proc: evaluates the parsed template.  `ok` is false when it throws BadParamCount.  The list may
        be the query's own defaults. */
    method Proc(p: SQLQueryParms) returns (ok: bool)
      requires templateDefaults.bound
      modifies this`sbuffer, p`items, templateDefaults`items
      ensures var out := ProcFrom(escape, parseElems, Env(old(p.items), p.bound, old(templateDefaults.items)));
        && sbuffer == out.text && ok == out.ok
        && p.items == out.env.params
        && (p != templateDefaults ==> templateDefaults.items == out.env.defaults)
    {
      sbuffer := "";
      var i := 0;
      ghost var env := Env(p.items, p.bound, templateDefaults.items);
      ghost var out := ProcFrom(escape, parseElems, env);
      PrependNothing(out);
      assert parseElems[i..] == parseElems;
      hide ProcFrom, Rendered, Env.Use, Env.Get, Env.Has, Prepend;
      while i != |parseElems|
        invariant 0 <= i <= |parseElems|
        invariant Prepend(sbuffer, ProcFrom(escape, parseElems[i..], env)) == out
        invariant Holds(p, env)
      {
        var e := parseElems[i];
        ghost var rest := parseElems[i + 1..];
        assert parseElems[i..] == [e] + rest;
        ElementDone(escape, sbuffer, e, rest, env, out);
        sbuffer := sbuffer + e.before;
        if e.num >= 0 {
          var found, text := UseParameter(e.option, e.num, p, env);
          if !found {
            sbuffer := sbuffer + " ERROR";
            return false;
          }
          sbuffer := sbuffer + text;
          env := env.Use(escape, e.option, e.num);
        }
        i := i + 1;
      }
      NothingLeft(escape, sbuffer, env, out);
      ok := true;
    }

    /** str(p): the text of the query, evaluated first if it is a template. */
    method Str(p: SQLQueryParms) returns (text: string, ok: bool)
      requires templateDefaults.bound
      modifies this`sbuffer, p`items, templateDefaults`items
      ensures parseElems == [] ==> ok && text == old(sbuffer) && p.items == old(p.items)
      ensures parseElems != [] ==>
        var out := ProcFrom(escape, parseElems, Env(old(p.items), p.bound, old(templateDefaults.items)));
        && ok == out.ok && text == out.text && p.items == out.env.params
        && (p != templateDefaults ==> templateDefaults.items == out.env.defaults)
      ensures parseElems == [] ==> templateDefaults.items == old(templateDefaults.items)
      ensures text == sbuffer
    {
      ok := true;
      if parseElems != [] {
        ok := Proc(p);
      }
      text := sbuffer;
    }
  }

  /** The elements and the tables of names of a query. */
  datatype Compiled = Compiled(elems: seq<Element>, names: seq<string>, nums: map<string, nat>)

  /** What has been compiled, after more was parsed. */
  function With(c: Compiled, more: Parsed): Compiled {
    Compiled(c.elems + more.elems, NamesAfter(c.names, more.namings), NumsAfter(c.nums, more.namings))
  }

  /** What is left to parse from position i on, `str` being the literal text gathered. */
  function ToParse(s: string, i: nat, str: string): Parsed
    requires i <= |s|
  {
    ParseFrom(s[i..], str)
  }

  lemma ToParseFromStart(s: string)
    ensures ToParse(s, 0, "") == ParseFrom(s, "")
  {
    assert s[0..] == s;
  }

  lemma {:induction false} TablesAppend(names: seq<string>, nums: map<string, nat>, a: seq<Naming>, b: seq<Naming>)
    ensures NamesAfter(NamesAfter(names, a), b) == NamesAfter(names, a + b)
    ensures NumsAfter(NumsAfter(nums, a), b) == NumsAfter(nums, a + b)
  {
    if b == [] {
      assert a + b == a;
    } else {
      hide NamesAfter, NumsAfter;
      var front, last := b[..|b| - 1], b[|b| - 1];
      TablesAppend(names, nums, a, front);
      ConcatAssociates(a, front, [last]);
      assert b == front + [last];
      NamedSnoc(names, nums, a + front, last);
      NamedSnoc(NamesAfter(names, a), NumsAfter(nums, a), front, last);
    }
  }

  lemma WithMeans(c: Compiled, more: Parsed)
    ensures With(c, more).elems == c.elems + more.elems
    ensures With(c, more).names == NamesAfter(c.names, more.namings)
    ensures With(c, more).nums == NumsAfter(c.nums, more.namings)
  {
  }

  lemma WithBoth(c: Compiled, a: Parsed, b: Parsed)
    ensures With(With(c, a), b) == With(c, Parsed(a.elems + b.elems, a.namings + b.namings))
  {
    ConcatAssociates(c.elems, a.elems, b.elems);
    TablesAppend(c.names, c.nums, a.namings, b.namings);
  }

  lemma LiteralCharacter(s: string, i: nat, str: string)
    requires i < |s| && s[i] != '\0'
    requires s[i] == '%' ==> Query.Char(s, i + 1) != '%' && !IsDigit(Query.Char(s, i + 1))
    ensures ToParse(s, i, str) == ToParse(s, i + 1, str + [s[i]])
    ensures s[i] == '%' ==> str + [s[i]] == str + "%"
  {
    assert s[i..][1..] == s[i + 1..];
  }

  lemma LiteralPercents(s: string, i: nat, str: string)
    requires i + 1 < |s| && s[i] == '%' && s[i + 1] == '%'
    ensures ToParse(s, i, str) == ToParse(s, i + 2, str + "%")
  {
    assert s[i..][1..] == s[i + 1..] && s[i..][2..] == s[i + 2..];
  }

  lemma ParseParameterFirst(t: string, str: string)
    requires First(t) == '%' && First(t[1..]) != '%' && IsDigit(First(t[1..]))
    ensures var p := ReadParameter(t[1..]);
      var later := ParseFrom(t[1 + p.used..], "");
      ParseFrom(t, str) == Parsed([Element(str, p.option, p.num)] + later.elems, Namings(p) + later.namings)
  {
    hide ReadParameter, IsDigit;
  }

  lemma ParseParameterText(s: string, before: string)
    requires IsDigit(First(s))
    ensures var p := ReadParameter(s);
      var later := ParseFrom(s[p.used..], "");
      ParseFrom("%" + s, before) == Parsed([Element(before, p.option, p.num)] + later.elems, Namings(p) + later.namings)
  {
    hide ReadParameter;
    var t, p := "%" + s, ReadParameter(s);
    assert t[1..] == s;
    assert t[1 + p.used..] == s[p.used..];
  }

  lemma AfterParameter(s: string, i: nat, str: string, c: Compiled)
    requires i < |s| && s[i] == '%' && Query.Char(s, i + 1) != '%' && IsDigit(Query.Char(s, i + 1))
    ensures var p := ReadParameter(s[i + 1..]);
      && i + 1 + p.used <= |s|
      && With(c, ToParse(s, i, str)) ==
         With(With(c, Parsed([Element(str, p.option, p.num)], Namings(p))), ToParse(s, i + 1 + p.used, ""))
  {
    hide ReadParameter, With, ParseFrom, Namings, IsDigit;
    Suffix(s, i, 1);
    var p := ReadParameter(s[i + 1..]);
    Suffix(s, i, 1 + p.used);
    ParseParameterFirst(s[i..], str);
    WithBoth(c, Parsed([Element(str, p.option, p.num)], Namings(p)), ToParse(s, i + 1 + p.used, ""));
  }

  lemma AtTheEnd(s: string, i: nat, str: string, c: Compiled)
    requires i <= |s| && Query.Char(s, i) == '\0'
    ensures With(c, ToParse(s, i, str)) == c.(elems := c.elems + [Element(str, ' ', -1)])
  {
  }

  lemma TablesGrow(names: seq<string>, nums: map<string, nat>, namings: seq<Naming>)
    requires |namings| <= 1
    ensures namings == [] ==> NamesAfter(names, namings) == names && NumsAfter(nums, namings) == nums
    ensures namings != [] ==>
      && NamesAfter(names, namings) == Padded(names, namings[0].num + 1)[namings[0].num := namings[0].name]
      && NumsAfter(nums, namings) == nums[namings[0].name := namings[0].num]
  {
    if namings != [] {
      assert namings[..0] == [];
    }
  }

  /** ReadParameter, up to the name, in terms of positions in a longer text. */
  lemma ReadParameterAt(s: string, start: nat)
    requires start <= |s| && IsDigit(Query.Char(s, start))
    ensures var d := DigitRun(s[start..], 3);
      && start + d <= |s|
      && var c, num := Query.Char(s, start + d), ToSignedChar(Leading(s[start..start + d], 0));
        if c == 'q' || c == 'Q' then
          start + d < |s| && ReadParameter(s[start..]) == ReadName(num, c, s[start..], d + 1)
        else ReadParameter(s[start..]) == ReadName(num, ' ', s[start..], d)
  {
    hide ReadName, DigitRun, Leading, ToSignedChar;
    Suffix(s, start, DigitRun(s[start..], 3));
  }

  /** ReadName, in terms of positions in a longer text. */
  lemma ReadNameAt(num: int, option: char, s: string, start: nat, o: nat)
    requires start + o <= |s|
    ensures Query.Char(s, start + o) != ':' ==>
      ReadName(num, option, s[start..], o) == Parameter(num, option, false, "", o)
    ensures Query.Char(s, start + o) == ':' ==>
      var k := NameRun(s[start + o + 1..]);
      var used := if Query.Char(s, start + o + 1 + k) == ':' then o + 2 + k else o + 1 + k;
      ReadName(num, option, s[start..], o) ==
        Parameter(num, option, true, s[start + o + 1..start + o + 1 + k], used)
  {
    hide NameRun, IsNameChar;
    var t := s[start..];
    Suffix(s, start, o);
    if First(t[o..]) == ':' {
      Suffix(s, start, o + 1);
      var k := NameRun(t[o + 1..]);
      Suffix(s, start, o + 1 + k);
      Slice(s, start, o + 1, o + 1 + k);
    }
  }

  lemma Slice(s: string, start: nat, i: nat, j: nat)
    requires i <= j && start + j <= |s|
    ensures s[start..][i..j] == s[start + i..start + j]
  {
  }

  lemma Suffix(s: string, start: nat, i: nat)
    requires start + i <= |s|
    ensures s[start..][i..] == s[start + i..]
    ensures s[start..][..i] == s[start..start + i]
    ensures First(s[start + i..]) == Query.Char(s, start + i)
  {
  }

  lemma NameRunFrom(s: string, i: nat)
    requires i <= |s|
    ensures IsNameChar(First(s[i..])) ==> NameRun(s[i..]) == 1 + NameRun(s[i + 1..])
    ensures !IsNameChar(First(s[i..])) ==> NameRun(s[i..]) == 0
  {
    if i < |s| {
      assert s[i..][1..] == s[i + 1..];
    }
  }

  lemma ThreeDigits(s: string, i: nat)
    requires i < |s| && IsDigit(s[i])
    ensures DigitRun(s[i..], 3) ==
      if i + 1 < |s| && IsDigit(s[i + 1]) then (if i + 2 < |s| && IsDigit(s[i + 2]) then 3 else 2) else 1
  {
    assert s[i..][1..] == s[i + 1..] && DigitRun(s[i + 1..], 2) == DigitRun(s[i..], 3) - 1;
    if i + 1 < |s| && IsDigit(s[i + 1]) {
      assert s[i + 1..][1..] == s[i + 2..];
      assert DigitRun(s[i + 1..], 2) == 1 + DigitRun(s[i + 2..], 1);
      if i + 2 < |s| && IsDigit(s[i + 2]) {
        assert s[i + 2..][1..] == s[i + 3..];
        assert DigitRun(s[i + 3..], 0) == 0;
      }
    }
  }
}
