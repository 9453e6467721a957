/**
 * The patterns the proxy applies to `Set-Cookie` lines (main.go:866, 873,
 * 882, 925) and what each one reads at the `;` before an attribute. Every
 * one is compiled with `(?i)`, opens with `;` and then `\s*`, and cannot
 * cross a `;`, so each is described by a `Reach` and replaced attribute by
 * attribute (module Attributes).
 */
module CookiePatterns {
  import opened Optional
  import opened Text
  import opened Pattern
  import opened Attributes

  /** The school's domain. */
  const School := "utaipei.edu.tw"

  /** `(?i);\s*w[^;]*`: an attribute named `w`, whole. */
  function WholeRegex(w: string): Regex {
    Regex(true, [Lit(";"), Star(Space, false), Lit(w), Star(NoneOf(";"), false)])
  }

  /** `(?i);\s*w\s*`: a flag `w` and the white space after it. */
  function SpacedRegex(w: string): Regex {
    Regex(true, [Lit(";"), Star(Space, false), Lit(w), Star(Space, false)])
  }

  /** `(?i);\s*w([^;]*\.)?t`: an attribute `w` whose value is `t` or ends in a subdomain of `t`. */
  function NamedRegex(w: string, t: string): Regex {
    Regex(true, [Lit(";"), Star(Space, false), Lit(w), Opt([Star(NoneOf(";"), false), Lit(".")]), Lit(t)])
  }

  /** `(?i);\s*path=[^;]*` */
  const PathAttr := WholeRegex("path=")

  /** `(?i);\s*domain=[^;]*` */
  const DomainAttr := WholeRegex("domain=")

  /** `(?i);\s*secure\s*` */
  const SecureAttr := SpacedRegex("secure")

  /** `(?i);\s*domain=([^;]*\.)?utaipei\.edu\.tw`, without the capture, which no replacement names. */
  const SchoolDomain := NamedRegex("domain=", School)

  // -------------------------------------------------- one attribute read

  /** After its leading white space the attribute starts with `w`, in any case. */
  predicate Keyword(a: string, w: string) {
    LitAt(true, w, a, Run(Space, a, 0))
  }

  /** An attribute named `w` is matched whole. */
  function WholeEnd(w: string, a: string): (r: Option<nat>)
    ensures r.Some? ==> r.value <= |a|
  {
    if Keyword(a, w) then Some(|a|) else None
  }

  /** A flag `w` is matched with the white space after it, whatever follows. */
  function SpacedEnd(w: string, a: string): (r: Option<nat>)
    ensures r.Some? ==> r.value <= |a|
  {
    if Keyword(a, w) then
      var m := Run(Space, a, 0) + |w|;
      Some(m + Run(Space, a, m))
    else None
  }

  function WholeReach(w: string): Reach {
    a => WholeEnd(w, a)
  }

  function SpacedReach(w: string): Reach {
    a => SpacedEnd(w, a)
  }

  /** `.` and then `t` stand at `i`. */
  predicate DotThen(t: string, a: string, i: nat) {
    LitAt(true, ".", a, i) && LitAt(true, t, a, i + 1)
  }

  /** The greatest `j <= k` with `.` and `t` at `m + j`. */
  function LastDot(t: string, a: string, m: nat, k: nat): (r: Option<nat>)
    ensures r.Some? ==> r.value <= k && DotThen(t, a, m + r.value)
    decreases k
  {
    if DotThen(t, a, m + k) then Some(k) else if k == 0 then None else LastDot(t, a, m, k - 1)
  }

  /**
   * From the value at `m`: up to the end of the last `.` followed by `t`,
   * or else of a `t` at `m` itself.
   */
  function NameFrom(t: string, a: string, m: nat): (r: Option<nat>)
    requires m <= |a|
    ensures r.Some? ==> r.value <= |a|
  {
    match LastDot(t, a, m, |a| - m)
    case Some(j) => Some(m + j + 1 + |t|)
    case None => if LitAt(true, t, a, m) then Some(m + |t|) else None
  }

  /** An attribute `w` naming `t` or a subdomain of it, matched up to the last `t`. */
  function NamedEnd(w: string, t: string, a: string): (r: Option<nat>)
    ensures r.Some? ==> r.value <= |a|
  {
    if Keyword(a, w) then NameFrom(t, a, Run(Space, a, 0) + |w|) else None
  }

  function NamedReach(w: string, t: string): Reach {
    a => NamedEnd(w, t, a)
  }

  const PathReach := WholeReach("path=")
  const DomainReach := WholeReach("domain=")
  const SecureReach := SpacedReach("secure")
  const SchoolReach := NamedReach("domain=", School)

  // ------------------------------------------------------ within a line

  /** `s` holds `;` and then the attribute `a`, followed by nothing or by the next `;`. */
  predicate Framed(s: string, a: string) {
    && 1 + |a| <= |s| && s[0] == ';'
    && (forall j :: 0 <= j < |a| ==> s[1 + j] == a[j])
    && (1 + |a| == |s| || s[1 + |a|] == ';')
  }

  lemma Framing(a: string, u: string)
    requires Follows(u)
    ensures Framed(";" + a + u, a)
  {
  }

  /** A class without `;` runs within the attribute. */
  lemma {:induction false} RunIn(c: Class, s: string, a: string, p: nat)
    requires Framed(s, a) && !In(c, ';') && p <= |a|
    ensures Run(c, s, 1 + p) == Run(c, a, p)
    decreases |a| - p
  {
    if p < |a| && In(c, a[p]) {
      RunIn(c, s, a, p + 1);
    }
  }

  /** A literal without `;` occurs within the attribute or not at all. */
  lemma LitIn(t: string, s: string, a: string, p: nat)
    requires Framed(s, a) && ';' !in t && p <= |a|
    ensures LitAt(true, t, s, 1 + p) <==> LitAt(true, t, a, p)
  {
    if p + |t| > |a| && 1 + p + |t| <= |s| {
      var i := |a| - p;
      assert s[1 + p + i] == ';';
      assert t[i] in t;
    }
  }

  /** Every rune from `m` to the end of `a` is outside `[^;]`'s complement. */
  lemma RunToEnd(a: string, m: nat)
    requires ';' !in a && m <= |a|
    ensures Run(NoneOf(";"), a, m) == |a| - m
  {
    forall j | m <= j < |a| ensures In(NoneOf(";"), a[j]) {
      assert a[j] in a;
    }
    RunAtLeast(NoneOf(";"), a, m, |a|);
  }

  /** A literal opening with a letter cannot match on white space, so `\s*` gives back nothing. */
  lemma {:induction false} LongestPast(w: string, tail: seq<Piece>, s: string, p: nat, k: nat)
    requires p + k <= |s| && |w| > 0 && 'a' <= w[0] <= 'z'
    requires forall j :: p <= j < p + k ==> In(Space, s[j])
    ensures Longest(true, [Lit(w)] + tail, s, p, k) == Match(true, [Lit(w)] + tail, s, p + k)
    decreases k
  {
    if k > 0 {
      LongestPast(w, tail, s, p, k - 1);
      LitStep(true, w, tail, s, p + k - 1);
    }
  }

  /** `;` and `\s*`: the greedy star takes the attribute's leading white space. */
  lemma OpenAttr(after: seq<Piece>, s: string, a: string)
    requires Framed(s, a)
    ensures Match(true, [Lit(";"), Star(Space, false)] + after, s, 0) == Longest(true, after, s, 1, Run(Space, a, 0))
  {
    assert [Lit(";"), Star(Space, false)] + after == [Lit(";")] + ([Star(Space, false)] + after);
    LitStep(true, ";", [Star(Space, false)] + after, s, 0);
    StarStep(true, Space, false, after, s, 1);
    RunIn(Space, s, a, 0);
  }

  /** The keyword after the white space. */
  lemma KeywordAfter(w: string, tail: seq<Piece>, s: string, a: string)
    requires Framed(s, a) && ';' !in w
    ensures Match(true, [Lit(w)] + tail, s, 1 + Run(Space, a, 0)) ==
      if Keyword(a, w) then Match(true, tail, s, 1 + Run(Space, a, 0) + |w|) else None
  {
    LitStep(true, w, tail, s, 1 + Run(Space, a, 0));
    LitIn(w, s, a, Run(Space, a, 0));
  }

  /** `;`, white space and a keyword: the rest of the pattern goes on after the keyword. */
  lemma KeywordMatch(w: string, tail: seq<Piece>, s: string, a: string)
    requires Framed(s, a) && ';' !in w && |w| > 0 && 'a' <= w[0] <= 'z'
    ensures Match(true, [Lit(";"), Star(Space, false), Lit(w)] + tail, s, 0) ==
      if Keyword(a, w) then Match(true, tail, s, 1 + Run(Space, a, 0) + |w|) else None
  {
    var n := Run(Space, a, 0);
    assert [Lit(";"), Star(Space, false), Lit(w)] + tail == [Lit(";"), Star(Space, false)] + ([Lit(w)] + tail);
    OpenAttr([Lit(w)] + tail, s, a);
    RunIn(Space, s, a, 0);
    LongestPast(w, tail, s, 1, n);
    KeywordAfter(w, tail, s, a);
  }

  /** `[^;]*` runs to the end of the attribute. */
  lemma ValueRest(s: string, a: string, m: nat)
    requires Framed(s, a) && ';' !in a && m <= |a|
    ensures Match(true, [Star(NoneOf(";"), false)], s, 1 + m) == Some(Hit(1 + |a|, []))
  {
    assert [Star(NoneOf(";"), false)] == [Star(NoneOf(";"), false)] + [];
    StarStep(true, NoneOf(";"), false, [], s, 1 + m);
    RunIn(NoneOf(";"), s, a, m);
    RunToEnd(a, m);
  }

  /** `\s*` takes the white space at `m`. */
  lemma SpaceRest(s: string, a: string, m: nat)
    requires Framed(s, a) && m <= |a|
    ensures Match(true, [Star(Space, false)], s, 1 + m) == Some(Hit(1 + m + Run(Space, a, m), []))
  {
    assert [Star(Space, false)] == [Star(Space, false)] + [];
    StarStep(true, Space, false, [], s, 1 + m);
    RunIn(Space, s, a, m);
  }

  /** `\.` and then `t` at `i` of the attribute. */
  lemma DotAt(t: string, s: string, a: string, i: nat)
    requires Framed(s, a) && ';' !in t && i <= |a|
    ensures Match(true, [Lit("."), Lit(t)], s, 1 + i) == if DotThen(t, a, i) then Some(Hit(2 + i + |t|, [])) else None
  {
    LitStep(true, ".", [Lit(t)], s, 1 + i);
    LitIn(".", s, a, i);
    if LitAt(true, ".", a, i) {
      assert [Lit(t)] == [Lit(t)] + [];
      LitStep(true, t, [], s, 2 + i);
      LitIn(t, s, a, i + 1);
    }
  }

  /** A match ending `d` runes after the position found, if one was. */
  function Past(r: Option<nat>, d: nat): Option<Hit> {
    match r
    case None => None
    case Some(j) => Some(Hit(d + j, []))
  }

  /** `[^;]*` before `\.` and `t` gives back runes until the last such dot. */
  /** From `m` on, `\.t` is matched in `s` exactly where the attribute has a dot and `t`. */
  predicate DotsRead(t: string, s: string, a: string, m: nat)
    requires 1 + |a| <= |s|
  {
    forall i :: m <= i <= |a| ==>
      Match(true, [Lit("."), Lit(t)], s, 1 + i) == if DotThen(t, a, i) then Some(Hit(2 + i + |t|, [])) else None
  }

  lemma {:induction false} DotBack(t: string, s: string, a: string, m: nat, k: nat)
    requires m + k <= |a| && 1 + |a| <= |s|
    requires DotsRead(t, s, a, m)
    ensures Longest(true, [Lit("."), Lit(t)], s, 1 + m, k) == Past(LastDot(t, a, m, k), 2 + m + |t|)
    decreases k
  {
    if k > 0 && !DotThen(t, a, m + k) {
      DotBack(t, s, a, m, k - 1);
    }
  }

  lemma DotsAt(t: string, s: string, a: string, m: nat)
    requires Framed(s, a) && ';' !in t && m <= |a|
    ensures DotsRead(t, s, a, m)
  {
    forall i | m <= i <= |a|
      ensures Match(true, [Lit("."), Lit(t)], s, 1 + i) == if DotThen(t, a, i) then Some(Hit(2 + i + |t|, [])) else None
    {
      DotAt(t, s, a, i);
    }
  }

  /** Within the attribute, from `m` on. */
  lemma LastDotFramed(t: string, s: string, a: string, m: nat)
    requires Framed(s, a) && ';' !in t && m <= |a|
    ensures Longest(true, [Lit("."), Lit(t)], s, 1 + m, |a| - m) == Past(LastDot(t, a, m, |a| - m), 2 + m + |t|)
  {
    var k := |a| - m;
    assert 1 + |a| <= |s| by { FramedLong(s, a); }
    DotsAt(t, s, a, m);
    DotBack(t, s, a, m, k);
  }

  lemma FramedLong(s: string, a: string)
    requires Framed(s, a)
    ensures 1 + |a| <= |s|
  {
  }

  /** `[^;]*` may take the rest of the attribute. */
  lemma StarToEnd(rest: seq<Piece>, s: string, a: string, m: nat)
    requires Framed(s, a) && ';' !in a && m <= |a|
    ensures Match(true, [Star(NoneOf(";"), false)] + rest, s, 1 + m) == Longest(true, rest, s, 1 + m, |a| - m)
  {
    StarStep(true, NoneOf(";"), false, rest, s, 1 + m);
    RunIn(NoneOf(";"), s, a, m);
    RunToEnd(a, m);
  }

  /** `[^;]*\.` taken, then `t`. */
  lemma NameDotted(t: string, s: string, a: string, m: nat)
    requires Framed(s, a) && ';' !in a && ';' !in t && m <= |a|
    ensures Match(true, [Star(NoneOf(";"), false), Lit("."), Lit(t)], s, 1 + m) == Past(LastDot(t, a, m, |a| - m), 2 + m + |t|)
  {
    var dotted := [Lit("."), Lit(t)];
    assert [Star(NoneOf(";"), false), Lit("."), Lit(t)] == [Star(NoneOf(";"), false)] + dotted;
    StarToEnd(dotted, s, a, m);
    LastDotFramed(t, s, a, m);
  }

  /** `t` alone. */
  lemma NameBare(t: string, s: string, a: string, m: nat)
    requires Framed(s, a) && ';' !in t && m <= |a|
    ensures Match(true, [Lit(t)], s, 1 + m) == if LitAt(true, t, a, m) then Some(Hit(1 + m + |t|, [])) else None
  {
    assert [Lit(t)] == [Lit(t)] + [];
    LitStep(true, t, [], s, 1 + m);
    LitIn(t, s, a, m);
  }

  /** The end `NameFrom` gives, as the two ways of matching find it. */
  lemma NameFromCases(t: string, a: string, m: nat)
    requires m <= |a|
    ensures Reached(NameFrom(t, a, m)) ==
      if Past(LastDot(t, a, m, |a| - m), 2 + m + |t|).Some? then Past(LastDot(t, a, m, |a| - m), 2 + m + |t|)
      else if LitAt(true, t, a, m) then Some(Hit(1 + m + |t|, [])) else None
  {
  }

  /** `([^;]*\.)?` and then `t`. */
  lemma NameRest(t: string, s: string, a: string, m: nat)
    requires Framed(s, a) && ';' !in a && ';' !in t && m <= |a|
    ensures Match(true, [Opt([Star(NoneOf(";"), false), Lit(".")]), Lit(t)], s, 1 + m) == Reached(NameFrom(t, a, m))
  {
    OptStep(true, [Star(NoneOf(";"), false), Lit(".")], [Lit(t)], s, 1 + m);
    assert [Star(NoneOf(";"), false), Lit(".")] + [Lit(t)] == [Star(NoneOf(";"), false), Lit("."), Lit(t)];
    NameDotted(t, s, a, m);
    NameBare(t, s, a, m);
    NameFromCases(t, a, m);
  }

  /** `;\s*w[^;]*`: an attribute starting with `w` is matched whole. */
  lemma WholeAt(w: string, s: string, a: string)
    requires Framed(s, a) && ';' !in a && ';' !in w && |w| > 0 && 'a' <= w[0] <= 'z'
    ensures Match(true, [Lit(";"), Star(Space, false), Lit(w), Star(NoneOf(";"), false)], s, 0) == Reached(WholeEnd(w, a))
  {
    assert [Lit(";"), Star(Space, false), Lit(w), Star(NoneOf(";"), false)]
      == [Lit(";"), Star(Space, false), Lit(w)] + [Star(NoneOf(";"), false)];
    KeywordMatch(w, [Star(NoneOf(";"), false)], s, a);
    if Keyword(a, w) {
      ValueRest(s, a, Run(Space, a, 0) + |w|);
    }
  }

  lemma SpacedTail(w: string, s: string, a: string)
    requires Framed(s, a) && Keyword(a, w)
    ensures Match(true, [Star(Space, false)], s, 1 + Run(Space, a, 0) + |w|) == Reached(SpacedEnd(w, a))
  {
    SpaceRest(s, a, Run(Space, a, 0) + |w|);
  }

  /** `;\s*w\s*`: an attribute starting with `w`, up to the white space after it. */
  lemma SpacedAt(w: string, s: string, a: string)
    requires Framed(s, a) && ';' !in w && |w| > 0 && 'a' <= w[0] <= 'z'
    ensures Match(true, [Lit(";"), Star(Space, false), Lit(w), Star(Space, false)], s, 0) == Reached(SpacedEnd(w, a))
  {
    assert [Lit(";"), Star(Space, false), Lit(w), Star(Space, false)]
      == [Lit(";"), Star(Space, false), Lit(w)] + [Star(Space, false)];
    KeywordMatch(w, [Star(Space, false)], s, a);
    if Keyword(a, w) {
      SpacedTail(w, s, a);
    }
  }

  /** `;\s*w([^;]*\.)?t`. */
  lemma NamedAt(w: string, t: string, s: string, a: string)
    requires Framed(s, a) && ';' !in a && ';' !in w && |w| > 0 && 'a' <= w[0] <= 'z' && ';' !in t
    ensures Match(true, [Lit(";"), Star(Space, false), Lit(w), Opt([Star(NoneOf(";"), false), Lit(".")]), Lit(t)], s, 0) ==
      Reached(NamedEnd(w, t, a))
  {
    var tail := [Opt([Star(NoneOf(";"), false), Lit(".")]), Lit(t)];
    assert [Lit(";"), Star(Space, false), Lit(w), Opt([Star(NoneOf(";"), false), Lit(".")]), Lit(t)]
      == [Lit(";"), Star(Space, false), Lit(w)] + tail;
    KeywordMatch(w, tail, s, a);
    if Keyword(a, w) {
      NamedTail(w, t, s, a);
    }
  }

  lemma NamedTail(w: string, t: string, s: string, a: string)
    requires Framed(s, a) && ';' !in a && ';' !in t && Keyword(a, w)
    ensures Match(true, [Opt([Star(NoneOf(";"), false), Lit(".")]), Lit(t)], s, 1 + Run(Space, a, 0) + |w|)
      == Reached(NameFrom(t, a, Run(Space, a, 0) + |w|))
  {
    NameRest(t, s, a, Run(Space, a, 0) + |w|);
  }

  // ------------------------------------------------------------- reads

  /** `;\s*w[^;]*` reads attribute by attribute, each attribute named `w` whole. */
  lemma WholeReads(w: string)
    requires ';' !in w && |w| > 0 && 'a' <= w[0] <= 'z'
    ensures Reads(WholeRegex(w), WholeReach(w))
  {
    var re := WholeRegex(w);
    forall a, u | ';' !in a && Follows(u)
      ensures Match(re.fold, re.pieces, ";" + a + u, 0) == Reached(WholeEnd(w, a))
    {
      Framing(a, u);
      WholeAt(w, ";" + a + u, a);
    }
  }

  /** `;\s*w\s*` reads attribute by attribute. */
  lemma SpacedReads(w: string)
    requires ';' !in w && |w| > 0 && 'a' <= w[0] <= 'z'
    ensures Reads(SpacedRegex(w), SpacedReach(w))
  {
    var re := SpacedRegex(w);
    forall a, u | ';' !in a && Follows(u)
      ensures Match(re.fold, re.pieces, ";" + a + u, 0) == Reached(SpacedEnd(w, a))
    {
      Framing(a, u);
      SpacedAt(w, ";" + a + u, a);
    }
  }

  /** `;\s*w([^;]*\.)?t` reads attribute by attribute. */
  lemma NamedReads(w: string, t: string)
    requires ';' !in w && |w| > 0 && 'a' <= w[0] <= 'z' && ';' !in t
    ensures Reads(NamedRegex(w, t), NamedReach(w, t))
  {
    var re := NamedRegex(w, t);
    forall a, u | ';' !in a && Follows(u)
      ensures Match(re.fold, re.pieces, ";" + a + u, 0) == Reached(NamedEnd(w, t, a))
    {
      Framing(a, u);
      NamedAt(w, t, ";" + a + u, a);
    }
  }

  /** `(?i);\s*path=[^;]*` matches exactly the `Path` attributes, each one whole. */
  lemma PathReads()
    ensures Reads(PathAttr, PathReach)
  {
    WholeReads("path=");
  }

  /** `(?i);\s*domain=[^;]*` matches exactly the `Domain` attributes, each one whole. */
  lemma DomainReads()
    ensures Reads(DomainAttr, DomainReach)
  {
    WholeReads("domain=");
  }

  /** `(?i);\s*secure\s*` matches the attributes that start with `secure`, up to the white space after it. */
  lemma SecureReads()
    ensures Reads(SecureAttr, SecureReach)
  {
    SpacedReads("secure");
  }

  /** The school-domain pattern matches a `Domain` attribute up to its last `utaipei.edu.tw`. */
  lemma SchoolReads()
    ensures Reads(SchoolDomain, SchoolReach)
  {
    NamedReads("domain=", School);
  }
}
