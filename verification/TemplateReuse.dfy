/** Reusing a bound list of parameters after it has grown.

    A value that was rendered in place carries a mark, so that it is not quoted and escaped again.  The
    mark does not survive a copy, and a list that grows may copy its values. */
module TemplateReuse {
  import opened TemplateQuery

  /** The mark of a processed value decides what is written for it: without it, the value is quoted, or
      its escaped form differs. */
  predicate MarkMatters(escape: string -> string, option: char, p: Param) {
    && p.processed && !p.isNull
    && (((option == 'q' || option == 'Q') && p.quoteQ) || (option == 'q' && p.escapeQ && escape(p.data) != p.data))
  }

  /** As the escape routines of database drivers. */
  ghost predicate NeverShortens(escape: string -> string) {
    forall s :: |escape(s)| >= |s|
  }

  /** A copy renders as the value does exactly when the mark does not matter; in particular a value that a
      quoting manipulator has marked is quoted again once it is stored in a list. */
  lemma CopyRendersSameIff(escape: string -> string, option: char, p: Param)
    requires NeverShortens(escape)
    ensures Rendered(escape, option, Copied(p)) == Rendered(escape, option, p) <==> !MarkMatters(escape, option, p)
    ensures |Rendered(escape, option, p)| >= if p.isNull then 4 else |p.data|
  {
    assert |escape(p.data)| >= |p.data|;
  }

  lemma UnmarkedRendersSame(escape: string -> string, option: char, p: Param)
    requires !MarkMatters(escape, option, p)
    ensures Rendered(escape, option, Copied(p)) == Rendered(escape, option, p)
  {
  }

  // ----- values that lost their mark -----

  /** A value and what may have become of it: itself, a copy, or a processed value of the same text. */
  predicate Kin(p: Param, q: Param) {
    || q == p || q == Copied(p)
    || (p.processed && q.processed && !p.isNull && !q.isNull && q.data == p.data)
  }

  ghost predicate EnvKin(was: Env, now: Env) {
    && now.bound == was.bound && now.defaults == was.defaults && |was.params| <= |now.params|
    && forall k :: 0 <= k < |was.params| ==> Kin(was.params[k], now.params[k])
  }

  /** No element asks for a value that only the longer list has. */
  predicate Avoids(elems: seq<Element>, was: Env, now: Env) {
    forall j :: 0 <= j < |elems| ==> elems[j].num < |was.params| || elems[j].num >= |now.params|
  }

  /** Element j is rendered differently because its value lost a mark that matters.  In a bound list only
      the first use of a value counts: it is marked again from then on. */
  predicate Harmed(escape: string -> string, elems: seq<Element>, was: Env, now: Env, j: int)
    requires |was.params| <= |now.params|
  {
    && 0 <= j < |elems| && 0 <= elems[j].num < |was.params|
    && MarkMatters(escape, elems[j].option, was.params[elems[j].num])
    && !now.params[elems[j].num].processed
    && (was.bound ==> forall i :: 0 <= i < j ==> elems[i].num != elems[j].num)
  }

  ghost predicate AnyHarmed(escape: string -> string, elems: seq<Element>, was: Env, now: Env)
    requires |was.params| <= |now.params|
  {
    exists j :: Harmed(escape, elems, was, now, j)
  }

  lemma KinRendered(escape: string -> string, option: char, p: Param, q: Param)
    requires Kin(p, q) && (q.processed || !MarkMatters(escape, option, p))
    ensures Rendered(escape, option, q) == Rendered(escape, option, p)
    ensures Kin(Settled(escape, option, p), Settled(escape, option, q))
  {
    if q == Copied(p) && !MarkMatters(escape, option, p) {
      UnmarkedRendersSame(escape, option, p);
    }
  }

  lemma UseKin(escape: string -> string, option: char, num: nat, was: Env, now: Env)
    requires EnvKin(was, now) && was.Has(num) && (num < |was.params| || num >= |now.params|)
    requires num < |was.params| ==> now.params[num].processed || !MarkMatters(escape, option, was.params[num])
    ensures now.Has(num) && Rendered(escape, option, now.Get(num)) == Rendered(escape, option, was.Get(num))
    ensures EnvKin(was.Use(escape, option, num), now.Use(escape, option, num))
  {
    if num < |was.params| {
      KinRendered(escape, option, was.params[num], now.params[num]);
    }
    hide Kin, MarkMatters, Rendered, Settled;
  }

  lemma UseLengths(escape: string -> string, option: char, num: nat, env: Env)
    requires env.Has(num)
    ensures |env.Use(escape, option, num).params| == |env.params|
    ensures |env.Use(escape, option, num).defaults| == |env.defaults|
    ensures env.Use(escape, option, num).bound == env.bound
  {
  }

  /** The first element used the value at num; what is harmed afterwards was harmed before, unless it is
      that value in a bound list. */
  lemma HarmedAfterUse(escape: string -> string, elems: seq<Element>, was: Env, now: Env, j: int)
    requires elems != [] && elems[0].num >= 0 && EnvKin(was, now) && was.Has(elems[0].num) && Avoids(elems, was, now)
    requires !Harmed(escape, elems, was, now, 0)
    ensures now.Has(elems[0].num)
    ensures var num, option := elems[0].num, elems[0].option;
      var was', now' := was.Use(escape, option, num), now.Use(escape, option, num);
      && |was'.params| <= |now'.params|
      && (Harmed(escape, elems, was, now, j + 1) <==> j >= 0 && Harmed(escape, elems[1..], was', now', j))
  {
    hide MarkMatters, Kin, Rendered;
    var num, option := elems[0].num, elems[0].option;
    var was', now' := was.Use(escape, option, num), now.Use(escape, option, num);
    if 0 <= j < |elems| - 1 && 0 <= elems[j + 1].num < |was.params| {
      var k := elems[j + 1].num;
      FirstUse(elems, j);
      if k == num {
        Reuse(escape, option, elems[j + 1].option, was.params[k], now.params[k]);
      } else {
        assert was'.params[k] == was.params[k] && now'.params[k] == now.params[k];
      }
    }
  }

  predicate IsFirst(elems: seq<Element>, j: int)
    requires 0 <= j < |elems|
  {
    forall i :: 0 <= i < j ==> elems[i].num != elems[j].num
  }

  lemma FirstUse(elems: seq<Element>, j: nat)
    requires j + 1 < |elems|
    ensures IsFirst(elems, j + 1) <==> elems[0].num != elems[j + 1].num && IsFirst(elems[1..], j)
  {
    assert forall i :: 0 < i < |elems| ==> elems[i] == elems[1..][i - 1];
  }

  /** A value that was used in a bound list has lost nothing that matters for its next use. */
  lemma Reuse(escape: string -> string, option: char, next: char, p: Param, q: Param)
    requires Kin(p, q)
    ensures Settled(escape, option, q).processed || !MarkMatters(escape, next, Settled(escape, option, p))
  {
  }

  // ----- nothing harmed, nothing changed -----

  lemma {:induction false} UnharmedSameText(escape: string -> string, elems: seq<Element>, was: Env, now: Env)
    requires EnvKin(was, now) && Avoids(elems, was, now) && !AnyHarmed(escape, elems, was, now)
    ensures ProcFrom(escape, elems, now).text == ProcFrom(escape, elems, was).text
    decreases |elems|
  {
    hide Harmed, Kin, Rendered, MarkMatters;
    if elems != [] {
      var e, rest := elems[0], elems[1..];
      if e.num < 0 {
        SkipHarmed(escape, elems, was, now);
        UnharmedSameText(escape, rest, was, now);
      } else if was.Has(e.num) {
        assert !Harmed(escape, elems, was, now, 0);
        NotHarmedAtHead(escape, elems, was, now);
        UseKin(escape, e.option, e.num, was, now);
        UseLengths(escape, e.option, e.num, was);
        UseLengths(escape, e.option, e.num, now);
        var was', now' := was.Use(escape, e.option, e.num), now.Use(escape, e.option, e.num);
        forall j
          ensures !Harmed(escape, rest, was', now', j)
        {
          HarmedAfterUse(escape, elems, was, now, j);
          NeverNegative(escape, rest, was', now', j);
        }
        UnharmedSameText(escape, rest, was', now');
      }
    }
  }

  lemma NeverNegative(escape: string -> string, elems: seq<Element>, was: Env, now: Env, j: int)
    requires |was.params| <= |now.params|
    ensures Harmed(escape, elems, was, now, j) ==> 0 <= j < |elems|
  {
  }

  lemma NotHarmedAtHead(escape: string -> string, elems: seq<Element>, was: Env, now: Env)
    requires elems != [] && 0 <= elems[0].num && |was.params| <= |now.params|
    ensures Harmed(escape, elems, was, now, 0) <==>
      elems[0].num < |was.params| && MarkMatters(escape, elems[0].option, was.params[elems[0].num])
      && !now.params[elems[0].num].processed
  {
    hide MarkMatters;
  }

  /** An element without a parameter harms nothing. */
  lemma SkipHarmed(escape: string -> string, elems: seq<Element>, was: Env, now: Env)
    requires elems != [] && elems[0].num < 0 && |was.params| <= |now.params|
    ensures AnyHarmed(escape, elems, was, now) <==> AnyHarmed(escape, elems[1..], was, now)
  {
    hide Harmed;
    if j :| Harmed(escape, elems, was, now, j) {
      NeverNegative(escape, elems, was, now, j);
      SkipHead(escape, elems, was, now);
      SkipOne(escape, elems, was, now, j - 1);
    }
    if j :| Harmed(escape, elems[1..], was, now, j) {
      NeverNegative(escape, elems[1..], was, now, j);
      SkipOne(escape, elems, was, now, j);
      assert Harmed(escape, elems, was, now, j + 1);
    }
  }

  lemma SkipOne(escape: string -> string, elems: seq<Element>, was: Env, now: Env, j: nat)
    requires elems != [] && elems[0].num < 0 && |was.params| <= |now.params|
    ensures Harmed(escape, elems, was, now, j + 1) <==> Harmed(escape, elems[1..], was, now, j)
  {
    hide MarkMatters;
    if j < |elems| - 1 {
      FirstUse(elems, j);
    }
  }

  lemma SkipHead(escape: string -> string, elems: seq<Element>, was: Env, now: Env)
    requires elems != [] && elems[0].num < 0 && |was.params| <= |now.params|
    ensures !Harmed(escape, elems, was, now, 0)
  {
  }

  // ----- what is harmed gets longer -----

  /** A value and one that renders at least as long. */
  predicate Longer(p: Param, q: Param) {
    || q == p || (p.isNull && q.isNull)
    || (p.processed && !p.isNull && !q.isNull && |q.data| >= |p.data|)
  }

  ghost predicate EnvLonger(was: Env, now: Env) {
    && now.bound == was.bound && now.defaults == was.defaults && |was.params| <= |now.params|
    && forall k :: 0 <= k < |was.params| ==> Longer(was.params[k], now.params[k])
  }

  lemma LongerRendered(escape: string -> string, option: char, p: Param, q: Param)
    requires NeverShortens(escape) && Longer(p, q)
    ensures |Rendered(escape, option, q)| >= |Rendered(escape, option, p)|
    ensures Longer(Settled(escape, option, p), Settled(escape, option, q))
  {
    assert |escape(q.data)| >= |q.data|;
  }

  lemma UseLonger(escape: string -> string, option: char, num: nat, was: Env, now: Env)
    requires NeverShortens(escape) && EnvLonger(was, now) && was.Has(num)
    requires num < |was.params| || num >= |now.params|
    ensures now.Has(num)
    ensures |Rendered(escape, option, now.Get(num))| >= |Rendered(escape, option, was.Get(num))|
    ensures EnvLonger(was.Use(escape, option, num), now.Use(escape, option, num))
  {
    if num < |was.params| {
      LongerRendered(escape, option, was.params[num], now.params[num]);
    }
    hide NeverShortens, Rendered, Settled, Longer;
    assert num >= |now.params| ==> now.Get(num) == was.Get(num);
    if num < |was.params| && was.bound {
      assert Longer(Settled(escape, option, was.params[num]), Settled(escape, option, now.params[num]));
    }
  }

  lemma {:induction false} LongerText(escape: string -> string, elems: seq<Element>, was: Env, now: Env)
    requires NeverShortens(escape) && EnvLonger(was, now) && Avoids(elems, was, now)
    ensures |ProcFrom(escape, elems, now).text| >= |ProcFrom(escape, elems, was).text|
    decreases |elems|
  {
    hide NeverShortens, Rendered, EnvLonger;
    if elems != [] {
      var e, rest := elems[0], elems[1..];
      if e.num < 0 {
        LongerText(escape, rest, was, now);
      } else if was.Has(e.num) {
        UseLonger(escape, e.option, e.num, was, now);
        UseLengths(escape, e.option, e.num, was);
        UseLengths(escape, e.option, e.num, now);
        LongerText(escape, rest, was.Use(escape, e.option, e.num), now.Use(escape, e.option, e.num));
      } else {
        SameLack(was, now, e.num);
      }
    }
  }

  lemma SameLack(was: Env, now: Env, num: nat)
    requires EnvLonger(was, now) && !was.Has(num) && (num < |was.params| || num >= |now.params|)
    ensures !now.Has(num)
  {
  }

  lemma KinIsLonger(was: Env, now: Env)
    requires EnvKin(was, now)
    ensures EnvLonger(was, now)
  {
  }

  /** The text of an evaluation that begins with a use. */
  lemma TextOfUse(escape: string -> string, elems: seq<Element>, env: Env)
    requires elems != [] && elems[0].num >= 0 && env.Has(elems[0].num)
    ensures ProcFrom(escape, elems, env).text == elems[0].before
      + (Rendered(escape, elems[0].option, env.Get(elems[0].num))
         + ProcFrom(escape, elems[1..], env.Use(escape, elems[0].option, elems[0].num)).text)
    ensures ProcFrom(escape, elems, env).ok ==>
      ProcFrom(escape, elems[1..], env.Use(escape, elems[0].option, elems[0].num)).ok
  {
    hide Rendered, Env.Use, Env.Get;
  }

  lemma DiffersInside(a: string, b: string, b': string, c: string, c': string)
    requires b != b' && |b'| >= |b| && |c'| >= |c|
    ensures a + (b' + c') != a + (b + c)
  {
    if |b'| == |b| {
      assert (a + (b' + c'))[|a|..|a| + |b|] == b' && (a + (b + c))[|a|..|a| + |b|] == b;
    }
  }

  lemma DiffersLater(a: string, b: string, c: string, c': string)
    requires c' != c
    ensures a + (b + c') != a + (b + c)
  {
    assert (a + (b + c'))[|a| + |b|..] == c' && (a + (b + c))[|a| + |b|..] == c;
  }

  lemma {:induction false} HarmedOtherText(escape: string -> string, elems: seq<Element>, was: Env, now: Env, j: int)
    requires NeverShortens(escape) && EnvKin(was, now) && Avoids(elems, was, now)
    requires Harmed(escape, elems, was, now, j) && ProcFrom(escape, elems, was).ok
    ensures ProcFrom(escape, elems, now).text != ProcFrom(escape, elems, was).text
    decreases |elems|
  {
    NeverNegative(escape, elems, was, now, j);
    var e, rest := elems[0], elems[1..];
    if e.num < 0 {
      hide NeverShortens, Kin, MarkMatters;
      assert j > 0;
      FirstUse(elems, j - 1);
      HarmedOtherText(escape, rest, was, now, j - 1);
      hide ProcFrom;
      TextOfLiteral(escape, elems, was);
      TextOfLiteral(escape, elems, now);
    } else {
      hide ProcFrom, NeverShortens, Kin, Rendered, MarkMatters, Harmed;
      HarmedAtUse(escape, elems, was, now, j);
    }
  }

  lemma TextOfLiteral(escape: string -> string, elems: seq<Element>, env: Env)
    requires elems != [] && elems[0].num < 0
    ensures var later := ProcFrom(escape, elems[1..], env).text;
      && ProcFrom(escape, elems, env).text == elems[0].before + later
      && (elems[0].before + later)[|elems[0].before|..] == later
  {
  }

  lemma {:induction false} HarmedAtUse(escape: string -> string, elems: seq<Element>, was: Env, now: Env, j: int)
    requires NeverShortens(escape) && EnvKin(was, now) && Avoids(elems, was, now)
    requires Harmed(escape, elems, was, now, j) && 0 <= j < |elems| && ProcFrom(escape, elems, was).ok
    requires elems[0].num >= 0
    ensures ProcFrom(escape, elems, now).text != ProcFrom(escape, elems, was).text
    decreases |elems|, 0
  {
    hide NeverShortens, Kin, Rendered, MarkMatters, Harmed, Env.Use;
    var e, rest := elems[0], elems[1..];
    var was', now' := was.Use(escape, e.option, e.num), now.Use(escape, e.option, e.num);
    TextOfUse(escape, elems, was);
    KinIsLonger(was, now);
    UseLonger(escape, e.option, e.num, was, now);
    TextOfUse(escape, elems, now);
    UseLengths(escape, e.option, e.num, was);
    UseLengths(escape, e.option, e.num, now);
    hide ProcFrom, EnvLonger;
    var b, b' := Rendered(escape, e.option, was.Get(e.num)), Rendered(escape, e.option, now.Get(e.num));
    var c, c' := ProcFrom(escape, rest, was').text, ProcFrom(escape, rest, now').text;
    NotHarmedAtHead(escape, elems, was, now);
    if Harmed(escape, elems, was, now, 0) {
      HeadDiffers(escape, e.option, was.params[e.num], now.params[e.num]);
      LongerText(escape, rest, was', now');
      DiffersInside(e.before, b, b', c, c');
    } else {
      UseKin(escape, e.option, e.num, was, now);
      assert j != 0;
      HarmedAfterUse(escape, elems, was, now, j - 1);
      HarmedOtherText(escape, rest, was', now', j - 1);
      DiffersLater(e.before, b, c, c');
    }
  }

  lemma HeadDiffers(escape: string -> string, option: char, p: Param, q: Param)
    requires NeverShortens(escape) && MarkMatters(escape, option, p) && Kin(p, q) && !q.processed
    ensures Rendered(escape, option, q) != Rendered(escape, option, p)
  {
    CopyRendersSameIff(escape, option, p);
  }

  // ----- the result -----

  /** A bound list was evaluated, then grew, and the same template is evaluated again.  The text is the same
      if no value lost a mark that matters for its first use, and, for an escape routine that never
      shortens, only then.  The new values are not for the template. */
  lemma ReusedListRendersSameIff(escape: string -> string, elems: seq<Element>, env: Env, grown: Env)
    requires var out := ProcFrom(escape, elems, env);
      && out.ok && grown.bound == env.bound && grown.defaults == out.env.defaults
      && GrewFrom(out.env.params, grown.params) && Avoids(elems, out.env, grown)
    ensures var out := ProcFrom(escape, elems, env);
      && (!AnyHarmed(escape, elems, out.env, grown) ==> ProcFrom(escape, elems, grown).text == out.text)
      && (NeverShortens(escape) ==>
            (ProcFrom(escape, elems, grown).text == out.text <==> !AnyHarmed(escape, elems, out.env, grown)))
  {
    var out := ProcFrom(escape, elems, env);
    SecondTimeSameText(escape, elems, env);
    ProcSucceeds(escape, elems, env);
    hide ProcFrom, Harmed, NeverShortens;
    if !AnyHarmed(escape, elems, out.env, grown) {
      UnharmedSameText(escape, elems, out.env, grown);
    } else if NeverShortens(escape) {
      var j :| Harmed(escape, elems, out.env, grown, j);
      HarmedOtherText(escape, elems, out.env, grown, j);
    }
  }

  /** What the first use of a value of a bound list makes of it stays. */
  lemma {:induction false} SettledAtFirst(escape: string -> string, elems: seq<Element>, env: Env, j: nat)
    requires env.bound && ProcFrom(escape, elems, env).ok
    requires j < |elems| && 0 <= elems[j].num < |env.params| && IsFirst(elems, j)
    ensures var final := ProcFrom(escape, elems, env).env.params;
      && |final| == |env.params|
      && final[elems[j].num] == Settled(escape, elems[j].option, env.params[elems[j].num])
    decreases |elems|
  {
    hide Settled, Rendered;
    var e, rest := elems[0], elems[1..];
    if j == 0 {
      SettledIsFixed(escape, e.option, env.params[e.num]);
      FixedStays(escape, rest, env.Use(escape, e.option, e.num), e.num);
    } else {
      FirstUse(elems, j - 1);
      SettledAtFirst(escape, rest, if e.num < 0 then env else env.Use(escape, e.option, e.num), j - 1);
    }
  }

  lemma SettledIsFixed(escape: string -> string, option: char, p: Param)
    ensures IsFixed(Settled(escape, option, p))
  {
  }

  /** The value is quoted, or its text goes through the escape routine, in its place in the list. */
  predicate ChangesInPlace(option: char, p: Param) {
    !p.isNull && (option == 'q' || (option == 'Q' && p.quoteQ))
  }

  lemma SettledMatters(escape: string -> string, option: char, p: Param)
    requires !p.processed
    ensures MarkMatters(escape, option, Settled(escape, option, p)) <==> ChangesInPlace(option, p)
  {
  }

  /** The first uses that change their value in place. */
  ghost predicate FirstUseChanges(elems: seq<Element>, params: seq<Param>) {
    exists j :: 0 <= j < |elems| && 0 <= elems[j].num < |params| && IsFirst(elems, j)
      && ChangesInPlace(elems[j].option, params[elems[j].num])
  }

  /** If the list moved as it grew, the text is the same exactly when no parameter of the template is
      written, where it is first used, with an option that changes its value in place.  Even a number
      written with option q is then taken for a string and quoted. */
  lemma MovedListRendersSameIff(escape: string -> string, elems: seq<Element>, env: Env, more: seq<Param>)
    requires NeverShortens(escape) && env.bound && ProcFrom(escape, elems, env).ok
    requires forall k :: 0 <= k < |env.params| ==> !env.params[k].processed
    requires forall j :: 0 <= j < |elems| ==> elems[j].num < |env.params| || elems[j].num >= |env.params| + |more|
    ensures var out := ProcFrom(escape, elems, env);
      ProcFrom(escape, elems, out.env.(params := Copies(out.env.params) + more)).text == out.text <==>
        !FirstUseChanges(elems, env.params)
  {
    var out := ProcFrom(escape, elems, env);
    var grown := out.env.(params := Copies(out.env.params) + more);
    ProcSucceeds(escape, elems, env);
    hide ProcFrom, NeverShortens;
    ReusedListRendersSameIff(escape, elems, env, grown);
    forall j: int
      ensures Harmed(escape, elems, out.env, grown, j) <==>
        0 <= j < |elems| && 0 <= elems[j].num < |env.params| && IsFirst(elems, j)
        && ChangesInPlace(elems[j].option, env.params[elems[j].num])
    {
      MovedHarm(escape, elems, env, grown, j);
    }
  }

  lemma MovedHarm(escape: string -> string, elems: seq<Element>, env: Env, grown: Env, j: int)
    requires env.bound && ProcFrom(escape, elems, env).ok
    requires forall k :: 0 <= k < |env.params| ==> !env.params[k].processed
    requires var settled := ProcFrom(escape, elems, env).env;
      && settled.bound && |settled.params| == |env.params| <= |grown.params|
      && forall k :: 0 <= k < |env.params| ==> !grown.params[k].processed
    ensures Harmed(escape, elems, ProcFrom(escape, elems, env).env, grown, j) <==>
      0 <= j < |elems| && 0 <= elems[j].num < |env.params| && IsFirst(elems, j)
      && ChangesInPlace(elems[j].option, env.params[elems[j].num])
  {
    hide ProcFrom, MarkMatters, Settled, ChangesInPlace;
    if 0 <= j < |elems| && 0 <= elems[j].num < |env.params| && IsFirst(elems, j) {
      SettledAtFirst(escape, elems, env, j);
      SettledMatters(escape, elems[j].option, env.params[elems[j].num]);
    }
  }

  /** As when a bound list of one value is evaluated as quoted, and moves: the value is quoted twice. */
  lemma QuotedTwice(escape: string -> string, env: Env)
    requires escape("'a'") == "\\'a\\'" && escape("a") == "a"
    requires env == Env([Param("a", false, true, true, false)], true, [])
    ensures var elems := [Element("", 'q', 0), Element("", ' ', -1)];
      var out := ProcFrom(escape, elems, env);
      && out.ok && out.text == "'a'"
      && ProcFrom(escape, elems, out.env.(params := Copies(out.env.params))).text == "'\\'a\\''"
  {
    var elems := [Element("", 'q', 0), Element("", ' ', -1)];
    OneQuoted(escape, "a", env);
    var out := ProcFrom(escape, elems, env);
    assert "'" + "a" + "'" == "'a'";
    assert Copies(out.env.params) == [Param("'a'", false, true, true, false)];
    OneQuoted(escape, "'a'", out.env.(params := Copies(out.env.params)));
  }

  lemma OneQuoted(escape: string -> string, data: string, env: Env)
    requires env == Env([Param(data, false, true, true, false)], true, [])
    ensures var text := "'" + escape(data) + "'";
      ProcFrom(escape, [Element("", 'q', 0), Element("", ' ', -1)], env) ==
        Output(text, Env([Param(text, false, true, true, true)], true, []), true)
  {
    var last := [Element("", ' ', -1)];
    var text := "'" + escape(data) + "'";
    var env' := env.Use(escape, 'q', 0);
    assert env'.params == [Param(text, false, true, true, true)];
    assert ProcFrom(escape, last, env') == Output("", env', true) by {
      assert last[1..] == [] && "" + "" == "";
    }
    ProcCons(escape, Element("", 'q', 0), last, env);
    assert [Element("", 'q', 0)] + last == [Element("", 'q', 0), Element("", ' ', -1)];
    assert ("" + text) + "" == text;
  }
}
