/**
 * What the proxy makes of each `Set-Cookie` header of the school's replies.
 * `transformSetCookie` rewrites the cookie for the proxy's own host, and
 * `createUtaipeiCookie` makes a second copy scoped to the whole school
 * domain. Both work on the header text with case-insensitive regular
 * expressions and substring tests; the line forms below say the same in
 * terms of the cookie's attributes (`Attributes.Line`), and the lemmas
 * connect the two.
 */
module Cookies {
  import opened Optional
  import opened Text
  import opened Pattern
  import opened Url
  import opened Template
  import opened Attributes
  import opened CookiePatterns

  // ------------------------------------------------------------ text tests

  /** `strings.Contains(strings.ToLower(s), w)`. */
  predicate Mentions(s: string, w: string) {
    Contains(Lower(s), w)
  }

  /** The words that mark a cookie as part of a login. */
  predicate IsAuthCookie(s: string) {
    Mentions(s, "jsessionid") || Mentions(s, "auth") || Mentions(s, "login")
    || Mentions(s, "session") || Mentions(s, "user")
  }

  /** A proxy host the school's browsers cannot reach under its domain. */
  predicate IsLocal(host: string) {
    host == "127.0.0.1" || host == "localhost"
  }

  /** The proxy is served over TLS. */
  predicate Https(public: string) {
    "https://" <= public
  }

  // -------------------------------------------------- attributes it writes

  const RootAttr := " Path=/"
  const SchoolAttr := " Domain=.utaipei.edu.tw"
  const SecureFlag := " Secure"
  const LaxAttr := " SameSite=Lax"
  const NoneAttr := " SameSite=None"

  /** The `Domain` the production rewrite gives every cookie. */
  function ProxyAttr(host: string): string {
    " Domain=" + host
  }

  // ----------------------------------------------------------------- steps

  /** Drops each `Domain` naming the school or one of its subdomains, if any attribute says `domain=`. */
  function DropSchoolDomain(c: string): string {
    if Mentions(c, "domain=") then ReplaceAllString(SchoolDomain, c, "") else c
  }

  /** Over plain HTTP, drops each `Secure` flag with the white space after it. */
  function DropSecure(c: string, https: bool): string {
    if https then c else ReplaceAllString(SecureAttr, c, "")
  }

  /** The `Path` step as written: the test for an existing `Path` is a substring test on `path=`. */
  function RootPathAsWritten(c: string): string {
    if Mentions(c, "path=") then ReplaceAllString(PathAttr, c, "; Path=/") else c + "; Path=/"
  }

  /** The `Path` step as intended: each `Path` attribute made `Path=/`, or one added when there is none. */
  function RootPath(c: string): string {
    if MatchString(PathAttr, c) then ReplaceAllString(PathAttr, c, "; Path=/") else c + "; Path=/"
  }

  /** The `SameSite` the local transform adds when the cookie has none. */
  function LocalSameSite(c: string, https: bool): string {
    if Mentions(c, "samesite") then c
    else if IsAuthCookie(c) && https then
      var n := c + "; SameSite=None";
      if Mentions(n, "secure") then n else n + "; Secure"
    else if IsAuthCookie(c) then c + "; SameSite=Lax"
    else if https then c + "; SameSite=None"
    else c + "; SameSite=Lax"
  }

  /** What the local transform's `Path` step is given. */
  function LocalPathInput(c: string, https: bool): string {
    DropSecure(DropSchoolDomain(c), https)
  }

  /** A cookie for a proxy on the local machine, as written. */
  function LocalCookie(c: string, https: bool): string {
    LocalSameSite(RootPathAsWritten(LocalPathInput(c, https)), https)
  }

  /** The local cookie with the intended `Path` step. */
  function LocalCookieFixed(c: string, https: bool): string {
    LocalSameSite(RootPath(LocalPathInput(c, https)), https)
  }

  /** Every `Domain` made the proxy's host, by the template `; Domain=<host>`. */
  function ProxyDomain(c: string, host: string): string {
    ReplaceFrom(DomainAttr, c, 0, 0, Expander("; Domain=" + host))
  }

  /** What the production transform's `Path` step is given. */
  function ProductionPathInput(c: string, host: string, https: bool): string {
    DropSecure(ProxyDomain(c, host), https)
  }

  /** A cookie for a proxy served under its own host name, as written. */
  function ProductionCookie(c: string, host: string, https: bool): string {
    RootPathAsWritten(ProductionPathInput(c, host, https))
  }

  /** The production cookie with the intended `Path` step. */
  function ProductionCookieFixed(c: string, host: string, https: bool): string {
    RootPath(ProductionPathInput(c, host, https))
  }

  /**
   * `transformSetCookie`: the cookie as the proxy's own host should set it,
   * or the cookie unchanged when the proxy's public URL does not parse.
   */
  function TransformSetCookie(lib: UrlLib, public: string, c: string): (r: string)
    ensures lib.parse(public).None? ==> r == c
    ensures lib.parse(public).Some? && IsLocal(Hostname(lib.parse(public).value.host)) ==>
      r == LocalCookie(c, Https(public))
    ensures lib.parse(public).Some? && !IsLocal(Hostname(lib.parse(public).value.host)) ==>
      r == ProductionCookie(c, Hostname(lib.parse(public).value.host), Https(public))
  {
    match lib.parse(public)
    case None => c
    case Some(u) =>
      var host := Hostname(u.host);
      if IsLocal(host) then LocalCookie(c, Https(public)) else ProductionCookie(c, host, Https(public))
  }

  /** `transformSetCookie` with the intended `Path` step. */
  function TransformSetCookieFixed(lib: UrlLib, public: string, c: string): (r: string)
    ensures lib.parse(public).None? ==> r == c
    ensures lib.parse(public).Some? && IsLocal(Hostname(lib.parse(public).value.host)) ==>
      r == LocalCookieFixed(c, Https(public))
    ensures lib.parse(public).Some? && !IsLocal(Hostname(lib.parse(public).value.host)) ==>
      r == ProductionCookieFixed(c, Hostname(lib.parse(public).value.host), Https(public))
  {
    match lib.parse(public)
    case None => c
    case Some(u) =>
      var host := Hostname(u.host);
      if IsLocal(host) then LocalCookieFixed(c, Https(public)) else ProductionCookieFixed(c, host, Https(public))
  }

  /** Every `Domain` made `.utaipei.edu.tw`, or one added when there is none. */
  function SchoolScoped(c: string): string {
    if MatchString(DomainAttr, c) then ReplaceAllString(DomainAttr, c, "; Domain=.utaipei.edu.tw")
    else c + "; Domain=.utaipei.edu.tw"
  }

  /** `; Secure` added unless the text says `secure` somewhere. */
  function MarkSecure(c: string): string {
    if Mentions(c, "secure") then c else c + "; Secure"
  }

  /** The `SameSite=None` the school-wide copy gets when it has no `SameSite`. */
  function CrossSite(c: string): string {
    if Mentions(c, "samesite") then c
    else if IsAuthCookie(c) then MarkSecure(c + "; SameSite=None")
    else c + "; SameSite=None"
  }

  /** The school-wide copy as written: `secure` is looked for before the `Path` rewrite. */
  function UtaipeiCookieAsWritten(c: string): string {
    CrossSite(RootPathAsWritten(MarkSecure(SchoolScoped(c))))
  }

  /** The school-wide copy, with `secure` looked for once the `Path` is rewritten. */
  function UtaipeiCookie(c: string): string {
    CrossSite(MarkSecure(RootPath(SchoolScoped(c))))
  }

  /**
   * `createUtaipeiCookie`: the copy for `.utaipei.edu.tw`, or nothing when
   * the proxy runs locally or its public URL does not parse.
   */
  function CreateUtaipeiCookie(lib: UrlLib, public: string, c: string): (r: string)
    ensures lib.parse(public).None? ==> r == ""
    ensures lib.parse(public).Some? && IsLocal(Hostname(lib.parse(public).value.host)) ==> r == ""
    ensures lib.parse(public).Some? && !IsLocal(Hostname(lib.parse(public).value.host)) ==> r == UtaipeiCookieAsWritten(c)
  {
    match lib.parse(public)
    case None => ""
    case Some(u) => if IsLocal(Hostname(u.host)) then "" else UtaipeiCookieAsWritten(c)
  }

  /** `createUtaipeiCookie` with `secure` looked for after the intended `Path` step. */
  function CreateUtaipeiCookieFixed(lib: UrlLib, public: string, c: string): (r: string)
    ensures lib.parse(public).None? ==> r == ""
    ensures lib.parse(public).Some? && IsLocal(Hostname(lib.parse(public).value.host)) ==> r == ""
    ensures lib.parse(public).Some? && !IsLocal(Hostname(lib.parse(public).value.host)) ==> r == UtaipeiCookie(c)
  {
    match lib.parse(public)
    case None => ""
    case Some(u) => if IsLocal(Hostname(u.host)) then "" else UtaipeiCookie(c)
  }

  // ------------------------------------------------------------ line forms

  /** Each `Path` attribute made `Path=/`, or one added when there is none. */
  function RootPaths(attrs: seq<string>): seq<string> {
    if Reaches(PathReach, attrs) then Swap(PathReach, RootAttr, attrs) else attrs + [RootAttr]
  }

  /** The `Secure` flags dropped over plain HTTP. */
  function Unsecured(attrs: seq<string>, https: bool): seq<string> {
    if https then attrs else Drop(SecureReach, attrs)
  }

  /** The local transform's attributes, before `SameSite`. */
  function LocalAttrs(attrs: seq<string>, https: bool): seq<string> {
    RootPaths(Unsecured(Drop(SchoolReach, attrs), https))
  }

  /** The production transform's attributes. */
  function ProductionAttrs(attrs: seq<string>, host: string, https: bool): seq<string> {
    RootPaths(Unsecured(Swap(DomainReach, ProxyAttr(host), attrs), https))
  }

  /** Each `Domain` made `.utaipei.edu.tw`, or one added. */
  function SchoolScopedAttrs(attrs: seq<string>): seq<string> {
    if Reaches(DomainReach, attrs) then Swap(DomainReach, SchoolAttr, attrs) else attrs + [SchoolAttr]
  }

  /** The school-wide copy's attributes, before `SameSite`. */
  function UtaipeiAttrs(pair: string, attrs: seq<string>): seq<string> {
    var p := RootPaths(SchoolScopedAttrs(attrs));
    if Mentions(Render(Line(pair, p)), "secure") then p else p + [SecureFlag]
  }

  // --------------------------------------------------------- what is said

  /** A word said by a part of a text is said by the text. */
  lemma MentionsIn(u: string, x: string, v: string, w: string)
    ensures Mentions(x, w) ==> Mentions(u + x + v, w)
  {
    LowerConcat(u + x, v);
    LowerConcat(u, x);
    ContainsInFactor(Lower(u), Lower(x), Lower(v), w);
  }

  lemma MentionsGrown(c: string, t: string, w: string)
    ensures Mentions(c, w) ==> Mentions(c + t, w)
  {
    MentionsIn("", c, t, w);
    assert "" + c + t == c + t;
  }

  lemma MentionsAdded(c: string, t: string, w: string)
    ensures Mentions(t, w) ==> Mentions(c + t, w)
  {
    MentionsIn(c, t, "", w);
    assert c + t + "" == c + t;
  }

  /** A word said by one attribute is said by the line. */
  lemma MentionsAttr(l: Line, i: nat, w: string)
    requires i < |l.attrs|
    ensures Mentions(l.attrs[i], w) ==> Mentions(Render(l), w)
  {
    var a, xs, ys := l.attrs[i], l.attrs[..i], l.attrs[i + 1..];
    assert l.attrs == xs + ([a] + ys);
    TailAppend(xs, [a] + ys);
    TailCons(a, ys);
    var u := l.pair + Tail(xs) + ";";
    assert Render(l) == u + a + Tail(ys);
    MentionsIn(u, a, Tail(ys), w);
  }

  /** The lower case of the runes at `i` spells `w`. */
  lemma SaysAt(s: string, w: string, i: nat)
    requires i + |w| <= |s| && forall j :: 0 <= j < |w| ==> LowerChar(s[i + j]) == w[j]
    ensures Mentions(s, w)
  {
    assert Lower(s)[i..][..|w|] == w;
    ContainsAt(Lower(s), w, i);
  }

  /** A lower-case letter absent from a text in both cases is absent from its lower case. */
  lemma LowerLacks(s: string, x: char)
    requires 'a' <= x <= 'z' && x != 'i' && x != 'k'
    requires x !in s && (x as int - 32) as char !in s
    ensures x !in Lower(s)
  {
    forall i | 0 <= i < |s| ensures Lower(s)[i] != x {
      assert s[i] in s;
    }
  }

  /**
   * A word whose last rune stands in the text only between `u` and `v`
   * occurs only if `u` ends with the rest of the word.
   */
  lemma LastRuneOnce(u: string, v: string, w: string)
    requires |w| > 0 && w[|w| - 1] !in u && w[|w| - 1] !in v
    requires !HasSuffix(u, w[..|w| - 1])
    ensures !Contains(u + [w[|w| - 1]] + v, w)
  {
    var c, s := w[|w| - 1], u + [w[|w| - 1]] + v;
    forall i | 0 <= i <= |s| ensures !(w <= s[i..]) {
      if w <= s[i..] {
        PrefixAt(w, s[i..], |w| - 1);
        assert false;
      }
    }
  }

  /** Letters other than `s`, and `=`: the runes a keyword may hold for the substring gates to agree with it. */
  predicate Plain(c: char) {
    ('a' <= c <= 'z' && c != 's') || c == '='
  }

  lemma PlainLower(c: char, x: char)
    requires Plain(c) && Same(true, c, x)
    ensures LowerChar(x) == c
  {
  }

  /** An attribute the patterns read as keyword `w` says `w`. */
  lemma KeywordMentions(a: string, w: string)
    requires forall i :: 0 <= i < |w| ==> Plain(w[i])
    ensures Keyword(a, w) ==> Mentions(a, w)
  {
    if Keyword(a, w) {
      var p := Run(Space, a, 0);
      forall j | 0 <= j < |w| ensures LowerChar(a[p + j]) == w[j] {
        PlainLower(w[j], a[p + j]);
      }
      SaysAt(a, w, p);
    }
  }

  /** A `Path` attribute says `path=`. */
  lemma PathSaid(a: string)
    ensures PathReach(a).Some? ==> Mentions(a, "path=")
  {
    KeywordMentions(a, "path=");
  }

  /** A `Domain` naming the school says `domain=`. */
  lemma DomainSaid(a: string)
    ensures SchoolReach(a).Some? ==> Mentions(a, "domain=")
  {
    KeywordMentions(a, "domain=");
  }

  // ------------------------------------------------- the attributes written

  /** One space, then a rune that is not white space: the keyword stands at 1. */
  lemma OneSpace(a: string, w: string)
    requires 2 <= |a| && a[0] == ' ' && !In(Space, a[1]) && |w| > 0
    ensures Keyword(a, w) <==> LitAt(true, w, a, 1)
    ensures !Same(true, w[0], a[1]) ==> !Keyword(a, w)
  {
    assert Run(Space, a, 1) == 0;
  }

  lemma RootAttrRead()
    ensures PathReach(RootAttr) == Some(|RootAttr|)
    ensures DomainReach(RootAttr).None? && SchoolReach(RootAttr).None? && SecureReach(RootAttr).None?
  {
    RootAttrPath();
    RootAttrOthers();
  }

  lemma RootAttrPath()
    ensures PathReach(RootAttr) == Some(|RootAttr|)
  {
    OneSpace(RootAttr, "path=");
  }

  lemma RootAttrOthers()
    ensures DomainReach(RootAttr).None? && SchoolReach(RootAttr).None? && SecureReach(RootAttr).None?
  {
    OneSpace(RootAttr, "domain=");
    OneSpace(RootAttr, "secure");
  }

  lemma SchoolAttrRead()
    ensures DomainReach(SchoolAttr) == Some(|SchoolAttr|) && PathReach(SchoolAttr).None?
  {
    assert SchoolAttr == ProxyAttr(".utaipei.edu.tw");
    ProxyAttrRead(".utaipei.edu.tw");
  }

  lemma SecureFlagRead()
    ensures DomainReach(SecureFlag).None? && PathReach(SecureFlag).None?
  {
    OneSpace(SecureFlag, "path=");
    OneSpace(SecureFlag, "domain=");
  }

  lemma ProxyAttrRead(host: string)
    ensures DomainReach(ProxyAttr(host)) == Some(|ProxyAttr(host)|)
    ensures PathReach(ProxyAttr(host)).None? && SecureReach(ProxyAttr(host)).None?
  {
    var a := ProxyAttr(host);
    assert a[..8] == " Domain=";
    OneSpace(a, "path=");
    OneSpace(a, "domain=");
    OneSpace(a, "secure");
  }

  // ------------------------------------------------------ lines rewritten

  /** The texts the steps add are `;` and the attribute. */
  lemma WrittenTexts()
    ensures "; Path=/" == ";" + RootAttr
    ensures "; Domain=.utaipei.edu.tw" == ";" + SchoolAttr
    ensures "; Secure" == ";" + SecureFlag
    ensures "; SameSite=Lax" == ";" + LaxAttr
    ensures "; SameSite=None" == ";" + NoneAttr
  {
  }

  lemma InserterPlain(t: string)
    ensures Uncounted(Inserter(t))
    ensures forall m :: Inserter(t)(0, m, []) == t
  {
  }

  /** An attribute of the `Whole` pattern is always matched whole. */
  lemma WholeAlways(w: string, attrs: seq<string>)
    ensures Whole(WholeReach(w), attrs)
  {
  }

  /** Nothing matched, nothing dropped. */
  lemma {:induction false} DropNone(reach: Reach, attrs: seq<string>)
    requires forall i :: 0 <= i < |attrs| ==> reach(attrs[i]).None?
    ensures Drop(reach, attrs) == attrs
    decreases |attrs|
  {
    if |attrs| > 0 {
      assert reach(attrs[0]).None?;
      DropNone(reach, attrs[1..]);
      assert attrs == [attrs[0]] + attrs[1..];
    }
  }

  /** Adding the attribute `a` is appending `;` and `a`. */
  lemma AppendText(l: Line, a: string)
    ensures Render(l) + (";" + a) == Render(Line(l.pair, l.attrs + [a]))
  {
    AppendAttr(l, a);
    Assoc(Render(l), ";", a);
  }

  /** Replacing matched attributes by one without `;` keeps the line unbroken. */
  lemma SwapUnbroken(reach: Reach, t: string, l: Line)
    requires Unbroken(l) && ';' !in t
    ensures Unbroken(Line(l.pair, Swap(reach, t, l.attrs)))
  {
    var r := Swap(reach, t, l.attrs);
    SwapSpec(reach, t, l.attrs);
    forall b | b in r ensures ';' !in b {
      var i :| 0 <= i < |r| && r[i] == b;
      assert l.attrs[i] in l.attrs;
    }
  }

  lemma DropUnbroken(reach: Reach, l: Line)
    requires Unbroken(l)
    ensures Unbroken(Line(l.pair, Drop(reach, l.attrs)))
  {
    DropSpec(reach, l.attrs);
  }

  lemma RootPathsUnbroken(l: Line)
    requires Unbroken(l)
    ensures Unbroken(Line(l.pair, RootPaths(l.attrs)))
  {
    if Reaches(PathReach, l.attrs) {
      SwapUnbroken(PathReach, RootAttr, l);
    }
  }

  /** Replacing each whole match by `;` and `t` swaps each matched attribute for `t`. */
  lemma SwapLine(re: Regex, reach: Reach, t: string, l: Line)
    requires Reads(re, reach) && Unbroken(l) && Whole(reach, l.attrs)
    ensures ReplaceAllString(re, Render(l), ";" + t) == Render(Line(l.pair, Swap(reach, t, l.attrs)))
  {
    InserterPlain(";" + t);
    ReplaceLine(re, reach, Inserter(";" + t), l);
    ReplacedWhole(reach, Inserter(";" + t), t, l.attrs);
  }

  /** Removing each whole match drops each matched attribute. */
  lemma DropLine(re: Regex, reach: Reach, l: Line)
    requires Reads(re, reach) && Unbroken(l) && Whole(reach, l.attrs)
    ensures ReplaceAllString(re, Render(l), "") == Render(Line(l.pair, Drop(reach, l.attrs)))
  {
    InserterPlain("");
    ReplaceLine(re, reach, Inserter(""), l);
    RemovedWhole(reach, Inserter(""), l.attrs);
  }

  /** With no attribute said to be `domain=`, the local domain step finds nothing to drop. */
  lemma UnmentionedDomains(l: Line)
    requires !Mentions(Render(l), "domain=")
    ensures forall i :: 0 <= i < |l.attrs| ==> SchoolReach(l.attrs[i]).None?
  {
    forall i | 0 <= i < |l.attrs| ensures SchoolReach(l.attrs[i]).None? {
      DomainSaid(l.attrs[i]);
      MentionsAttr(l, i, "domain=");
    }
  }

  /** The local domain step drops exactly the attributes naming the school. */
  lemma DropSchoolLine(l: Line)
    requires Unbroken(l) && Whole(SchoolReach, l.attrs)
    ensures DropSchoolDomain(Render(l)) == Render(Line(l.pair, Drop(SchoolReach, l.attrs)))
  {
    if Mentions(Render(l), "domain=") {
      SchoolReads();
      DropLine(SchoolDomain, SchoolReach, l);
    } else {
      UnmentionedDomains(l);
      DropNone(SchoolReach, l.attrs);
    }
  }

  /** Over plain HTTP the `Secure` step drops exactly the `Secure` flags. */
  lemma DropSecureLine(l: Line, https: bool)
    requires Unbroken(l) && Whole(SecureReach, l.attrs)
    ensures DropSecure(Render(l), https) == Render(Line(l.pair, Unsecured(l.attrs, https)))
  {
    if !https {
      SecureReads();
      DropLine(SecureAttr, SecureReach, l);
    }
  }

  /** The `Path` step swaps each `Path` attribute for `Path=/`, or adds one. */
  lemma RootPathLine(l: Line)
    requires Unbroken(l)
    ensures RootPath(Render(l)) == Render(Line(l.pair, RootPaths(l.attrs)))
  {
    WrittenTexts();
    PathReads();
    FindLine(PathAttr, PathReach, l);
    if Reaches(PathReach, l.attrs) {
      WholeAlways("path=", l.attrs);
      SwapLine(PathAttr, PathReach, RootAttr, l);
    } else {
      AppendText(l, RootAttr);
    }
  }

  /** The school-wide copy's domain step swaps each `Domain` for `.utaipei.edu.tw`, or adds one. */
  lemma SchoolScopedLine(l: Line)
    requires Unbroken(l)
    ensures SchoolScoped(Render(l)) == Render(Line(l.pair, SchoolScopedAttrs(l.attrs)))
  {
    WrittenTexts();
    DomainReads();
    FindLine(DomainAttr, DomainReach, l);
    if Reaches(DomainReach, l.attrs) {
      WholeAlways("domain=", l.attrs);
      SwapLine(DomainAttr, DomainReach, SchoolAttr, l);
    } else {
      AppendText(l, SchoolAttr);
    }
  }

  /** The production domain step swaps each `Domain` for the proxy's host. */
  lemma ProxyDomainLine(l: Line, host: string)
    requires Unbroken(l) && '$' !in host
    ensures ProxyDomain(Render(l), host) == Render(Line(l.pair, Swap(DomainReach, ProxyAttr(host), l.attrs)))
  {
    var t := "; Domain=" + host;
    assert '$' !in t;
    assert t == ";" + ProxyAttr(host);
    DomainReads();
    ExpanderUncounted(t);
    ReplaceLine(DomainAttr, DomainReach, Expander(t), l);
    WholeAlways("domain=", l.attrs);
    ReplacedWhole(DomainReach, Expander(t), ProxyAttr(host), l.attrs);
  }

  /** `Secure` added as an attribute when the line does not say it. */
  lemma MarkSecureLine(l: Line)
    ensures MarkSecure(Render(l)) ==
      Render(Line(l.pair, if Mentions(Render(l), "secure") then l.attrs else l.attrs + [SecureFlag]))
  {
    WrittenTexts();
    AppendText(l, SecureFlag);
  }

  // ------------------------------------------------------ whole transforms

  /** The local transform with the intended `Path` step, attribute by attribute, up to its `SameSite`. */
  lemma LocalLine(l: Line, https: bool)
    requires Unbroken(l) && Whole(SchoolReach, l.attrs) && Whole(SecureReach, l.attrs)
    ensures LocalCookieFixed(Render(l), https) == LocalSameSite(Render(Line(l.pair, LocalAttrs(l.attrs, https))), https)
  {
    var l1 := Line(l.pair, Drop(SchoolReach, l.attrs));
    DropSchoolLine(l);
    DropSpec(SchoolReach, l.attrs);
    var l2 := Line(l.pair, Unsecured(l1.attrs, https));
    DropSecureLine(l1, https);
    DropSpec(SecureReach, l1.attrs);
    RootPathLine(l2);
  }

  /** Swapping in an attribute that `other` matches whole, or not at all, keeps `other` whole. */
  lemma SwapWhole(reach: Reach, other: Reach, t: string, attrs: seq<string>)
    requires Whole(other, attrs) && (other(t).None? || other(t) == Some(|t|))
    ensures Whole(other, Swap(reach, t, attrs))
  {
    var swapped := Swap(reach, t, attrs);
    SwapSpec(reach, t, attrs);
    forall b | b in swapped ensures other(b).None? || other(b) == Some(|b|) {
      var i :| 0 <= i < |swapped| && swapped[i] == b;
      assert attrs[i] in attrs;
    }
  }

  /** The proxy's `Domain` is not a `Secure` flag, so swapping it in keeps the flags whole. */
  lemma ProxySwapKeeps(l: Line, host: string)
    requires Unbroken(l) && Whole(SecureReach, l.attrs) && ';' !in host
    ensures Unbroken(Line(l.pair, Swap(DomainReach, ProxyAttr(host), l.attrs)))
    ensures Whole(SecureReach, Swap(DomainReach, ProxyAttr(host), l.attrs))
  {
    ProxyAttrFree(host);
    SwapUnbroken(DomainReach, ProxyAttr(host), l);
    ProxySwapWhole(l.attrs, host);
  }

  lemma ProxyAttrFree(host: string)
    requires ';' !in host
    ensures ';' !in ProxyAttr(host)
  {
  }

  lemma ProxySwapWhole(attrs: seq<string>, host: string)
    requires Whole(SecureReach, attrs)
    ensures Whole(SecureReach, Swap(DomainReach, ProxyAttr(host), attrs))
  {
    ProxyAttrRead(host);
    SwapWhole(DomainReach, SecureReach, ProxyAttr(host), attrs);
  }

  /** The production transform with the intended `Path` step, attribute by attribute. */
  lemma ProductionLine(l: Line, host: string, https: bool)
    requires Unbroken(l) && Whole(SecureReach, l.attrs) && '$' !in host && ';' !in host
    ensures ProductionCookieFixed(Render(l), host, https) == Render(Line(l.pair, ProductionAttrs(l.attrs, host, https)))
  {
    var l1 := Line(l.pair, Swap(DomainReach, ProxyAttr(host), l.attrs));
    ProxyDomainLine(l, host);
    ProxySwapKeeps(l, host);
    var l2 := Line(l.pair, Unsecured(l1.attrs, https));
    DropSecureLine(l1, https);
    DropSpec(SecureReach, l1.attrs);
    RootPathLine(l2);
  }

  /** The school-wide copy, attribute by attribute, up to its `SameSite`. */
  lemma UtaipeiLine(l: Line)
    requires Unbroken(l)
    ensures UtaipeiCookie(Render(l)) == CrossSite(Render(Line(l.pair, UtaipeiAttrs(l.pair, l.attrs))))
  {
    ScopedRooted(l);
    MarkSecureLine(Line(l.pair, RootPaths(SchoolScopedAttrs(l.attrs))));
  }

  lemma ScopedRooted(l: Line)
    requires Unbroken(l)
    ensures RootPath(SchoolScoped(Render(l))) == Render(Line(l.pair, RootPaths(SchoolScopedAttrs(l.attrs))))
  {
    SchoolScopedLine(l);
    ScopedUnbroken(l);
    RootPathLine(Line(l.pair, SchoolScopedAttrs(l.attrs)));
  }

  lemma ScopedUnbroken(l: Line)
    requires Unbroken(l)
    ensures Unbroken(Line(l.pair, SchoolScopedAttrs(l.attrs)))
  {
    if Reaches(DomainReach, l.attrs) {
      SwapUnbroken(DomainReach, SchoolAttr, l);
    }
  }

  // ------------------------------------------------- what the forms keep

  /** Swapping for `t`, which `reach` matches: matched ones become `t`, the others stay. */
  lemma SwapMembers(reach: Reach, t: string, attrs: seq<string>)
    requires reach(t).Some?
    ensures forall b :: b in Swap(reach, t, attrs) && reach(b).Some? ==> b == t
    ensures forall b :: reach(b).None? ==> (b in Swap(reach, t, attrs) <==> b in attrs)
    ensures Reaches(reach, attrs) ==> t in Swap(reach, t, attrs) && Reaches(reach, Swap(reach, t, attrs))
  {
    var r := Swap(reach, t, attrs);
    SwapSpec(reach, t, attrs);
    forall b | b in r ensures reach(b).Some? ==> b == t {
      var i :| 0 <= i < |r| && r[i] == b;
    }
    forall b | reach(b).None? ensures b in r <==> b in attrs {
      if b in r {
        var i :| 0 <= i < |r| && r[i] == b;
      }
      if b in attrs {
        var i :| 0 <= i < |attrs| && attrs[i] == b;
        assert r[i] == b;
      }
    }
    if Reaches(reach, attrs) {
      var i :| 0 <= i < |attrs| && reach(attrs[i]).Some?;
      assert r[i] == t;
    }
  }

  /**
   * After the `Path` step the cookie has a `Path`, every `Path` is `Path=/`,
   * and no other attribute came or went.
   */
  lemma RootPathsSpec(attrs: seq<string>)
    ensures Reaches(PathReach, RootPaths(attrs))
    ensures forall b :: b in RootPaths(attrs) && PathReach(b).Some? ==> b == RootAttr
    ensures forall b :: PathReach(b).None? ==> (b in RootPaths(attrs) <==> b in attrs)
  {
    RootAttrRead();
    if Reaches(PathReach, attrs) {
      SwapMembers(PathReach, RootAttr, attrs);
    } else {
      var r := RootPaths(attrs);
      assert r[|attrs|] == RootAttr;
    }
  }

  /**
   * The local transform leaves no `Domain` naming the school, no `Secure`
   * over plain HTTP, and `Path=/` as the only `Path`; any other attribute
   * stays exactly when it is neither of those.
   */
  lemma LocalAttrsSpec(attrs: seq<string>, https: bool)
    ensures forall b :: b in LocalAttrs(attrs, https) ==> SchoolReach(b).None?
    ensures !https ==> forall b :: b in LocalAttrs(attrs, https) ==> SecureReach(b).None?
    ensures Reaches(PathReach, LocalAttrs(attrs, https))
    ensures forall b :: b in LocalAttrs(attrs, https) && PathReach(b).Some? ==> b == RootAttr
    ensures forall b :: PathReach(b).None? ==>
      (b in LocalAttrs(attrs, https) <==> b in attrs && SchoolReach(b).None? && (https || SecureReach(b).None?))
  {
    var kept := Drop(SchoolReach, attrs);
    DropSpec(SchoolReach, attrs);
    var u := Unsecured(kept, https);
    DropSpec(SecureReach, kept);
    RootPathsSpec(u);
    RootAttrRead();
  }

  /**
   * The production transform makes every `Domain` the proxy's host, leaves
   * no `Secure` over plain HTTP and `Path=/` as the only `Path`; any other
   * attribute stays exactly when it is not a dropped `Secure`.
   */
  lemma ProductionAttrsSpec(attrs: seq<string>, host: string, https: bool)
    ensures forall b :: b in ProductionAttrs(attrs, host, https) && DomainReach(b).Some? ==> b == ProxyAttr(host)
    ensures Reaches(DomainReach, attrs) ==> ProxyAttr(host) in ProductionAttrs(attrs, host, https)
    ensures !https ==> forall b :: b in ProductionAttrs(attrs, host, https) ==> SecureReach(b).None?
    ensures Reaches(PathReach, ProductionAttrs(attrs, host, https))
    ensures forall b :: b in ProductionAttrs(attrs, host, https) && PathReach(b).Some? ==> b == RootAttr
    ensures forall b :: PathReach(b).None? && DomainReach(b).None? ==>
      (b in ProductionAttrs(attrs, host, https) <==> b in attrs && (https || SecureReach(b).None?))
  {
    var swapped := Swap(DomainReach, ProxyAttr(host), attrs);
    ProxyAttrRead(host);
    SwapMembers(DomainReach, ProxyAttr(host), attrs);
    var u := Unsecured(swapped, https);
    DropSpec(SecureReach, swapped);
    RootPathsSpec(u);
    RootAttrRead();
  }

  /** The school-wide domain step leaves `.utaipei.edu.tw` as the only `Domain`. */
  lemma SchoolScopedSpec(attrs: seq<string>)
    ensures SchoolAttr in SchoolScopedAttrs(attrs)
    ensures forall b :: b in SchoolScopedAttrs(attrs) && DomainReach(b).Some? ==> b == SchoolAttr
    ensures forall b :: DomainReach(b).None? ==> (b in SchoolScopedAttrs(attrs) <==> b in attrs)
  {
    SchoolAttrRead();
    if Reaches(DomainReach, attrs) {
      SwapMembers(DomainReach, SchoolAttr, attrs);
    } else {
      var r := SchoolScopedAttrs(attrs);
      assert r[|attrs|] == SchoolAttr;
    }
  }

  /** A line ending in a `Secure` flag says `secure`. */
  lemma SecureSaid(pair: string, attrs: seq<string>)
    ensures Mentions(Render(Line(pair, attrs + [SecureFlag])), "secure")
  {
    var l := Line(pair, attrs);
    AppendAttr(l, SecureFlag);
    SaysAt(SecureFlag, "secure", 1);
    MentionsAdded(Render(l) + ";", SecureFlag, "secure");
  }

  /** Before its `Secure`, the school-wide copy has one kind of `Domain` and one kind of `Path`. */
  lemma ScopedRootSpec(attrs: seq<string>)
    ensures SchoolAttr in RootPaths(SchoolScopedAttrs(attrs))
    ensures forall b :: b in RootPaths(SchoolScopedAttrs(attrs)) && DomainReach(b).Some? ==> b == SchoolAttr
    ensures Reaches(PathReach, RootPaths(SchoolScopedAttrs(attrs)))
    ensures forall b :: b in RootPaths(SchoolScopedAttrs(attrs)) && PathReach(b).Some? ==> b == RootAttr
    ensures forall b :: PathReach(b).None? && DomainReach(b).None? ==>
      (b in RootPaths(SchoolScopedAttrs(attrs)) <==> b in attrs)
  {
    var d := SchoolScopedAttrs(attrs);
    SchoolScopedSpec(attrs);
    RootPathsSpec(d);
    RootAttrRead();
    SchoolAttrRead();
  }

  /**
   * The school-wide copy's attributes: `.utaipei.edu.tw` as the only
   * `Domain`, `Path=/` as the only `Path`, the text saying `secure`, and
   * every other attribute but a `Secure` flag kept exactly.
   */
  lemma UtaipeiAttrsSpec(pair: string, attrs: seq<string>)
    ensures SchoolAttr in UtaipeiAttrs(pair, attrs)
    ensures forall b :: b in UtaipeiAttrs(pair, attrs) && DomainReach(b).Some? ==> b == SchoolAttr
    ensures Reaches(PathReach, UtaipeiAttrs(pair, attrs))
    ensures forall b :: b in UtaipeiAttrs(pair, attrs) && PathReach(b).Some? ==> b == RootAttr
    ensures Mentions(Render(Line(pair, UtaipeiAttrs(pair, attrs))), "secure")
    ensures forall b :: PathReach(b).None? && DomainReach(b).None? && b != SecureFlag ==>
      (b in UtaipeiAttrs(pair, attrs) <==> b in attrs)
  {
    var p := RootPaths(SchoolScopedAttrs(attrs));
    ScopedRootSpec(attrs);
    if !Mentions(Render(Line(pair, p)), "secure") {
      SecureFlagRead();
      SecureSaid(pair, p);
      var i :| 0 <= i < |p| && PathReach(p[i]).Some?;
      assert (p + [SecureFlag])[i] == p[i];
    }
  }

  // ------------------------------------------------------------- SameSite

  lemma AddedTexts()
    ensures Mentions("; SameSite=Lax", "samesite") && Mentions("; SameSite=None", "samesite")
    ensures Mentions("; Secure", "secure")
  {
    SaysAt("; SameSite=Lax", "samesite", 2);
    SaysAt("; SameSite=None", "samesite", 2);
    SaysAt("; Secure", "secure", 2);
  }

  /**
   * The local transform adds a `SameSite` exactly when the cookie says none:
   * `Lax` over plain HTTP, `None` over HTTPS, with `Secure` for a login
   * cookie; afterwards the cookie says `samesite`.
   */
  lemma LocalSameSiteSpec(c: string, https: bool)
    ensures LocalSameSite(c, https) == c <==> Mentions(c, "samesite")
    ensures c <= LocalSameSite(c, https)
    ensures Mentions(LocalSameSite(c, https), "samesite")
    ensures !https && !Mentions(c, "samesite") ==> LocalSameSite(c, https) == c + "; SameSite=Lax"
    ensures https && !Mentions(c, "samesite") ==> c + "; SameSite=None" <= LocalSameSite(c, https)
    ensures https && !Mentions(c, "samesite") && IsAuthCookie(c) ==> Mentions(LocalSameSite(c, https), "secure")
  {
    AddedTexts();
    var n := c + "; SameSite=None";
    MentionsAdded(c, "; SameSite=Lax", "samesite");
    MentionsAdded(c, "; SameSite=None", "samesite");
    MentionsGrown(n, "; Secure", "samesite");
    MentionsGrown(n, "; Secure", "secure");
    MentionsAdded(n, "; Secure", "secure");
    assert n <= n + "; Secure";
  }

  /**
   * The school-wide copy adds `SameSite=None` exactly when the cookie says
   * no `SameSite`, and `Secure` with it for a login cookie that does not
   * say `secure`; nothing is taken away.
   */
  lemma CrossSiteSpec(c: string)
    ensures CrossSite(c) == c <==> Mentions(c, "samesite")
    ensures c <= CrossSite(c)
    ensures Mentions(CrossSite(c), "samesite")
    ensures !Mentions(c, "samesite") ==> c + "; SameSite=None" <= CrossSite(c)
    ensures Mentions(c, "secure") ==> Mentions(CrossSite(c), "secure")
    ensures !Mentions(c, "samesite") && IsAuthCookie(c) ==> Mentions(CrossSite(c), "secure")
  {
    AddedTexts();
    var n := c + "; SameSite=None";
    MentionsAdded(c, "; SameSite=None", "samesite");
    MentionsGrown(c, "; SameSite=None", "secure");
    MentionsGrown(n, "; Secure", "samesite");
    MentionsGrown(n, "; Secure", "secure");
    MentionsAdded(n, "; Secure", "secure");
    assert n <= n + "; Secure";
  }

  // ---------------------------------------------------- for every cookie

  /** After the `Path` step any cookie has a `Path` attribute. */
  lemma RootPathAttached(c: string)
    ensures MatchString(PathAttr, RootPath(c))
  {
    var l := Cut(c);
    RootPathLine(l);
    RootPathsUnbroken(l);
    RootPathsSpec(l.attrs);
    PathReads();
    FindLine(PathAttr, PathReach, Line(l.pair, RootPaths(l.attrs)));
  }

  /** A cookie with a `Path` attribute says `path=`. */
  lemma PathMentioned(c: string)
    ensures MatchString(PathAttr, c) ==> Mentions(c, "path=")
  {
    var l := Cut(c);
    PathReads();
    FindLine(PathAttr, PathReach, l);
    if Reaches(PathReach, l.attrs) {
      var i :| 0 <= i < |l.attrs| && PathReach(l.attrs[i]).Some?;
      PathSaid(l.attrs[i]);
      MentionsAttr(l, i, "path=");
    }
  }

  /** Where the cookie has a `Path` attribute the substring gate agrees with the pattern. */
  lemma PathGateAgrees(c: string)
    ensures MatchString(PathAttr, c) ==> RootPathAsWritten(c) == RootPath(c)
  {
    PathMentioned(c);
  }

  /** The substring gate agrees with the pattern: wherever the text says `path=`, it has a `Path` attribute. */
  predicate PathGate(c: string) {
    Mentions(c, "path=") ==> MatchString(PathAttr, c)
  }

  /** The `Path` step as written does what was intended exactly where the gate agrees with the pattern. */
  lemma RootPathGate(c: string)
    ensures RootPathAsWritten(c) == RootPath(c) <==> PathGate(c)
  {
    PathMentioned(c);
    if Mentions(c, "path=") && !MatchString(PathAttr, c) {
      PathReads();
      NoMatchReplaceAll(PathAttr, c, "; Path=/");
      assert |RootPath(c)| > |c|;
    }
  }

  /** As written, the `Path` step leaves a `Path` attribute wherever the gate agrees with the pattern. */
  lemma RootPathAsWrittenAttached(c: string)
    ensures PathGate(c) ==> MatchString(PathAttr, RootPathAsWritten(c))
  {
    RootPathGate(c);
    RootPathAttached(c);
  }

  /** The local transform as written is the intended one when its `Path` step's gate agrees. */
  lemma LocalAgrees(c: string, https: bool)
    requires PathGate(LocalPathInput(c, https))
    ensures LocalCookie(c, https) == LocalCookieFixed(c, https)
  {
    RootPathGate(LocalPathInput(c, https));
  }

  /** The production transform as written is the intended one when its `Path` step's gate agrees. */
  lemma ProductionAgrees(c: string, host: string, https: bool)
    requires PathGate(ProductionPathInput(c, host, https))
    ensures ProductionCookie(c, host, https) == ProductionCookieFixed(c, host, https)
  {
    RootPathGate(ProductionPathInput(c, host, https));
  }

  /** The school-wide copy as written says `samesite`, whatever the cookie. */
  lemma UtaipeiSameSite(c: string)
    ensures Mentions(UtaipeiCookieAsWritten(c), "samesite")
  {
    CrossSiteSpec(RootPathAsWritten(MarkSecure(SchoolScoped(c))));
  }

  /** The school-wide copy of any cookie says `secure` and `samesite`. */
  lemma UtaipeiSecure(c: string)
    ensures Mentions(UtaipeiCookie(c), "secure")
    ensures Mentions(UtaipeiCookie(c), "samesite")
  {
    var l := Cut(c);
    UtaipeiLine(l);
    UtaipeiAttrsSpec(l.pair, l.attrs);
    CrossSiteSpec(Render(Line(l.pair, UtaipeiAttrs(l.pair, l.attrs))));
  }

  // -------------------------------------------------------------- examples

  /** The greatest offset with `.` and `t` from `m` is `j` when none above it up to `k` has them. */
  lemma {:induction false} LastDotTop(t: string, a: string, m: nat, k: nat, j: nat)
    requires j <= k && DotThen(t, a, m + j)
    requires forall i :: m + j < i <= m + k ==> !DotThen(t, a, i)
    ensures LastDot(t, a, m, k) == Some(j)
    decreases k
  {
    if k > j {
      LastDotTop(t, a, m, k - 1, j);
    }
  }

  /** A `Domain` naming the school through any subdomain is matched whole by the local pattern. */
  lemma SubdomainRead(x: string)
    ensures SchoolReach(" Domain=" + x + "." + School) == Some(|" Domain=" + x + "." + School|)
  {
    SubdomainKeyword(x);
    SubdomainLast(x);
  }

  lemma SubdomainKeyword(x: string)
    ensures var a := " Domain=" + x + "." + School;
      Keyword(a, "domain=") && Run(Space, a, 0) + |"domain="| == 8
  {
    var v := x + "." + School;
    ProxyKeyword(v);
    assert " Domain=" + x + "." + School == ProxyAttr(v);
  }

  lemma ProxyKeyword(host: string)
    ensures Keyword(ProxyAttr(host), "domain=") && Run(Space, ProxyAttr(host), 0) == 1
  {
    var a := ProxyAttr(host);
    ProxyAttrRead(host);
    assert WholeEnd("domain=", a).Some?;
    assert a[..2] == " D";
    assert Run(Space, a, 1) == 0;
  }

  lemma SubdomainLast(x: string)
    ensures var a := " Domain=" + x + "." + School;
      LastDot(School, a, 8, |a| - 8) == Some(|x|)
  {
    var a := " Domain=" + x + "." + School;
    var m, j := 8, |x|;
    assert a[m + j] == '.';
    assert a[m + j + 1..] == School;
    assert DotThen(School, a, m + j);
    LastDotTop(School, a, m, |a| - m, j);
  }

  /** A letter missing from a text in both cases: no word holding it is said. */
  lemma Unsaid(s: string, w: string, j: nat)
    requires j < |w| && 'a' <= w[j] <= 'z' && w[j] != 'i' && w[j] != 'k'
    requires w[j] !in s && (w[j] as int - 32) as char !in s
    ensures !Mentions(s, w)
  {
    LowerLacks(s, w[j]);
    MissingRune(Lower(s), w, j);
  }

  lemma RenderOne(pair: string, a: string)
    ensures Render(Line(pair, [a])) == pair + ";" + a
  {
    assert Tail([a]) == ";" + a + Tail([]);
  }

  lemma RenderTwo(pair: string, a: string, b: string)
    ensures Render(Line(pair, [a, b])) == pair + ";" + a + ";" + b
  {
    assert [a, b][1..] == [b];
    assert [b][1..] == [];
    assert Tail([b]) == ";" + b;
    assert Tail([a, b]) == ";" + a + (";" + b);
  }

  lemma DropOne(reach: Reach, a: string)
    ensures Drop(reach, [a]) == if reach(a).Some? then [] else [a]
  {
    assert [a][1..] == [];
  }

  lemma DropTwo(reach: Reach, a: string, b: string)
    ensures Drop(reach, [a, b]) == (if reach(a).Some? then [] else [a]) + (if reach(b).Some? then [] else [b])
  {
    assert [a, b][1..] == [b];
    DropOne(reach, b);
  }

  lemma SwapTwo(reach: Reach, t: string, a: string, b: string)
    ensures Swap(reach, t, [a, b]) == [if reach(a).Some? then t else a, if reach(b).Some? then t else b]
  {
    assert [a, b][1..] == [b];
    assert [b][1..] == [];
    assert Swap(reach, t, [b]) == [if reach(b).Some? then t else b] + Swap(reach, t, []);
  }

  /** A `Path` attribute, whatever its value: only the `Path` pattern reads it, and whole. */
  lemma PathValueRead(p: string)
    ensures PathReach(" Path=" + p) == Some(|" Path=" + p|)
    ensures DomainReach(" Path=" + p).None? && SchoolReach(" Path=" + p).None?
    ensures SecureReach(" Path=" + p).None?
  {
    var a := " Path=" + p;
    assert a[..6] == " Path=";
    OneSpace(a, "path=");
    OneSpace(a, "domain=");
    OneSpace(a, "secure");
    assert LitAt(true, "path=", a, 1);
  }

  /** Both local patterns read the local example's attributes whole. */
  lemma ExampleWhole(x: string, p: string)
    ensures Whole(SchoolReach, [" Domain=" + x + "." + School, " Path=" + p])
    ensures Whole(SecureReach, [" Domain=" + x + "." + School, " Path=" + p])
  {
    var d, q := " Domain=" + x + "." + School, " Path=" + p;
    SubdomainRead(x);
    SubdomainUnsecured(x);
    PathValueRead(p);
    WholeTwo(SchoolReach, d, q);
    WholeTwo(SecureReach, d, q);
  }

  lemma SubdomainUnsecured(x: string)
    ensures SecureReach(" Domain=" + x + "." + School).None?
  {
    OneSpace(" Domain=" + x + "." + School, "secure");
  }

  lemma WholeTwo(reach: Reach, a: string, b: string)
    requires reach(a).None? || reach(a) == Some(|a|)
    requires reach(b).None? || reach(b) == Some(|b|)
    ensures Whole(reach, [a, b])
  {
  }

  /** Of the local example's attributes only `Path=/` is left. */
  lemma ExampleAttrs(x: string, p: string)
    ensures LocalAttrs([" Domain=" + x + "." + School, " Path=" + p], false) == [RootAttr]
  {
    var d, q := " Domain=" + x + "." + School, " Path=" + p;
    SubdomainRead(x);
    PathValueRead(p);
    DropTwo(SchoolReach, d, q);
    assert Drop(SchoolReach, [d, q]) == [q];
    DropOne(SecureReach, q);
    assert Unsecured([q], false) == [q];
    assert Reaches(PathReach, [q]) by { assert [q][0] == q; }
    assert [q][1..] == [];
    assert Swap(PathReach, RootAttr, [q]) == [RootAttr] + Swap(PathReach, RootAttr, []);
  }

  lemma ExampleUnbroken(pair: string, x: string, p: string)
    requires ';' !in pair && ';' !in x && ';' !in p
    ensures Unbroken(Line(pair, [" Domain=" + x + "." + School, " Path=" + p]))
  {
  }

  /** The local example's `Path` step is given the pair and its `Path`, which the pattern finds. */
  lemma ExampleGate(pair: string, x: string, p: string)
    requires ';' !in pair && ';' !in x && ';' !in p
    ensures PathGate(LocalPathInput(pair + ";" + (" Domain=" + x + "." + School) + ";" + (" Path=" + p), false))
  {
    var d, q := " Domain=" + x + "." + School, " Path=" + p;
    RenderTwo(pair, d, q);
    ExampleInput(pair, x, p);
    PathValueRead(p);
    PathKept(pair, q);
  }

  /** The local example's domain and flags dropped: the pair and its `Path`. */
  lemma ExampleInput(pair: string, x: string, p: string)
    requires ';' !in pair && ';' !in x && ';' !in p
    ensures LocalPathInput(Render(Line(pair, [" Domain=" + x + "." + School, " Path=" + p])), false)
      == Render(Line(pair, [" Path=" + p]))
  {
    var d, q := " Domain=" + x + "." + School, " Path=" + p;
    ExampleUnbroken(pair, x, p);
    ExampleWhole(x, p);
    DropSchoolLine(Line(pair, [d, q]));
    ExampleDrops(x, p);
    DropSecureLine(Line(pair, [q]), false);
  }

  /** A pair with one `Path` has the `Path` attribute the pattern looks for. */
  lemma PathKept(pair: string, q: string)
    requires ';' !in pair && ';' !in q && PathReach(q).Some?
    ensures MatchString(PathAttr, Render(Line(pair, [q])))
  {
    assert Reaches(PathReach, [q]) by { assert [q][0] == q; }
    PathFound(Line(pair, [q]));
  }

  lemma ExampleDrops(x: string, p: string)
    ensures var d, q := " Domain=" + x + "." + School, " Path=" + p;
      Drop(SchoolReach, [d, q]) == [q] && Unsecured([q], false) == [q] && Whole(SecureReach, [q])
  {
    var d, q := " Domain=" + x + "." + School, " Path=" + p;
    SubdomainRead(x);
    PathValueRead(p);
    DropTwo(SchoolReach, d, q);
    DropOne(SecureReach, q);
  }

  /** The steps before `SameSite` leave the pair and `Path=/`. */
  lemma ExampleLine(pair: string, x: string, p: string)
    requires ';' !in pair && ';' !in x && ';' !in p
    ensures LocalCookie(pair + ";" + (" Domain=" + x + "." + School) + ";" + (" Path=" + p), false)
      == LocalSameSite(pair + ";" + RootAttr, false)
  {
    var d, q := " Domain=" + x + "." + School, " Path=" + p;
    var l := Line(pair, [d, q]);
    RenderTwo(pair, d, q);
    RenderOne(pair, RootAttr);
    ExampleUnbroken(pair, x, p);
    ExampleWhole(x, p);
    ExampleAttrs(x, p);
    LocalLine(l, false);
    ExampleGate(pair, x, p);
    LocalAgrees(pair + ";" + d + ";" + q, false);
  }

  /** With no `m`, no `samesite`: over HTTP the cookie gets `SameSite=Lax`. */
  lemma LaxAdded(pair: string)
    requires 'm' !in pair && 'M' !in pair
    ensures LocalSameSite(pair + ";" + RootAttr, false) == pair + ";" + RootAttr + "; SameSite=Lax"
  {
    Unsaid(pair + ";" + RootAttr, "samesite", 2);
  }

  lemma ExampleTexts(pair: string, x: string, p: string)
    ensures pair + "; Domain=" + x + "." + School + "; Path=" + p
      == pair + ";" + (" Domain=" + x + "." + School) + ";" + (" Path=" + p)
    ensures pair + ";" + RootAttr + "; SameSite=Lax" == pair + "; Path=/; SameSite=Lax"
  {
  }

  /**
   * A cookie scoped to a school subdomain with any path, set through a
   * proxy on the local machine served over plain HTTP, keeps its pair and
   * gets `Path=/` and `SameSite=Lax`; `SESSION=abc; Domain=my.utaipei.edu.tw; Path=/x`
   * is one.
   */
  lemma LocalExample(lib: UrlLib, public: string, pair: string, x: string, p: string)
    requires lib.parse(public).Some? && IsLocal(Hostname(lib.parse(public).value.host)) && !Https(public)
    requires ';' !in pair && ';' !in x && ';' !in p && 'm' !in pair && 'M' !in pair
    ensures TransformSetCookie(lib, public, pair + "; Domain=" + x + "." + School + "; Path=" + p)
      == pair + "; Path=/; SameSite=Lax"
  {
    ExampleTexts(pair, x, p);
    ExampleLine(pair, x, p);
    LaxAdded(pair);
  }

  /** `lastpath=/x` says `path=` without a `Path` attribute: the step as written adds none. */
  lemma PathGateMisses(s: string)
    requires s == "lastpath=/x"
    ensures Mentions(s, "path=") && !MatchString(PathAttr, s)
    ensures RootPathAsWritten(s) == s
    ensures RootPath(s) == s + "; Path=/"
  {
    SaysAt(s, "path=", 4);
    PathReads();
    assert Render(Line(s, [])) == s;
    FindLine(PathAttr, PathReach, Line(s, []));
    NoMatchReplaceAll(PathAttr, s, "; Path=/");
  }

  /** A pair holding no `;` and none of `c`, `g`, `h`, `s` in either case: it says no login word, `samesite` or `secure`. */
  predicate Quiet(pair: string) {
    forall r :: r in pair ==> r !in ";cCgGhHsS"
  }

  /** A `Path` whose value says `secure`. */
  const DeepPath := " Path=/secure"

  lemma DeepPathRead()
    ensures PathReach(DeepPath).Some? && DomainReach(DeepPath).None?
  {
    assert DeepPath == " Path=" + "/secure";
    PathValueRead("/secure");
  }

  lemma DeepPathSays()
    ensures Mentions(DeepPath, "secure")
  {
    SaysAt(DeepPath, "secure", 7);
  }

  /** The school's `Domain` is added after the deep path. */
  lemma ScopedDeep(pair: string)
    requires ';' !in pair
    ensures SchoolScoped(pair + ";" + DeepPath) == pair + ";" + DeepPath + ";" + SchoolAttr
  {
    var l := Line(pair, [DeepPath]);
    DeepLine(pair);
    ScopedAppends(l);
    Assoc(pair + ";" + DeepPath, ";", SchoolAttr);
  }

  lemma DeepLine(pair: string)
    requires ';' !in pair
    ensures var l := Line(pair, [DeepPath]);
      Unbroken(l) && !Reaches(DomainReach, l.attrs) && Render(l) == pair + ";" + DeepPath
  {
    RenderOne(pair, DeepPath);
    DeepPathRead();
    assert !Reaches(DomainReach, [DeepPath]);
  }

  /** A line without a `Domain` gets the school's appended. */
  lemma ScopedAppends(l: Line)
    requires Unbroken(l) && !Reaches(DomainReach, l.attrs)
    ensures SchoolScoped(Render(l)) == Render(l) + (";" + SchoolAttr)
  {
    SchoolScopedLine(l);
    AppendText(l, SchoolAttr);
  }

  lemma DeepSaid(pair: string)
    ensures Mentions(pair + ";" + DeepPath + ";" + SchoolAttr, "secure")
  {
    DeepPathSays();
    MentionsIn(pair + ";", DeepPath, ";" + SchoolAttr, "secure");
    assert pair + ";" + DeepPath + (";" + SchoolAttr) == pair + ";" + DeepPath + ";" + SchoolAttr;
  }

  /** The copy as written, up to its `Secure` test: the deep path answers it. */
  lemma SecureLostScoped(pair: string)
    requires ';' !in pair
    ensures MarkSecure(SchoolScoped(pair + ";" + DeepPath)) == pair + ";" + DeepPath + ";" + SchoolAttr
  {
    ScopedDeep(pair);
    DeepSaid(pair);
  }

  /** The `Path` pattern matches a line exactly when one of its attributes is a `Path`. */
  lemma PathFound(l: Line)
    requires Unbroken(l)
    ensures MatchString(PathAttr, Render(l)) <==> Reaches(PathReach, l.attrs)
  {
    PathReads();
    FindLine(PathAttr, PathReach, l);
  }

  lemma DeepMatched(pair: string)
    requires ';' !in pair
    ensures MatchString(PathAttr, pair + ";" + DeepPath + ";" + SchoolAttr)
  {
    DeepTwo(pair);
    PathFound(Line(pair, [DeepPath, SchoolAttr]));
  }

  lemma DeepTwo(pair: string)
    requires ';' !in pair
    ensures var l := Line(pair, [DeepPath, SchoolAttr]);
      Unbroken(l) && Reaches(PathReach, l.attrs) && Render(l) == pair + ";" + DeepPath + ";" + SchoolAttr
  {
    RenderTwo(pair, DeepPath, SchoolAttr);
    DeepPathRead();
    UnbrokenTwo(pair, DeepPath, SchoolAttr);
    ReachesFirst(PathReach, DeepPath, SchoolAttr);
  }

  lemma UnbrokenTwo(pair: string, a: string, b: string)
    requires ';' !in pair && ';' !in a && ';' !in b
    ensures Unbroken(Line(pair, [a, b]))
  {
  }

  lemma ReachesFirst(reach: Reach, a: string, b: string)
    requires reach(a).Some?
    ensures Reaches(reach, [a, b])
  {
    assert [a, b][0] == a;
  }

  /** The `Path` rewrite then takes the only `secure` away. */
  lemma SecureLostRooted(pair: string)
    requires ';' !in pair
    ensures RootPathAsWritten(pair + ";" + DeepPath + ";" + SchoolAttr) == pair + ";" + RootAttr + ";" + SchoolAttr
  {
    DeepRootPath(pair);
    DeepMatched(pair);
    PathGateAgrees(pair + ";" + DeepPath + ";" + SchoolAttr);
  }

  /** The corrected `Path` rewrite of the deep line. */
  lemma DeepRootPath(pair: string)
    requires ';' !in pair
    ensures RootPath(pair + ";" + DeepPath + ";" + SchoolAttr) == pair + ";" + RootAttr + ";" + SchoolAttr
  {
    DeepTwo(pair);
    RootPathLine(Line(pair, [DeepPath, SchoolAttr]));
    DeepRooted();
    RenderTwo(pair, RootAttr, SchoolAttr);
  }

  lemma DeepRooted()
    ensures RootPaths([DeepPath, SchoolAttr]) == [RootAttr, SchoolAttr]
  {
    DeepPathRead();
    SchoolAttrRead();
    SwapTwo(PathReach, RootAttr, DeepPath, SchoolAttr);
    ReachesFirst(PathReach, DeepPath, SchoolAttr);
  }

  /** `auth` is not said where the only `h` follows something other than `aut`. */
  lemma AuthAbsent(u: string, v: string)
    requires 'h' !in u && 'H' !in u && 'h' !in v && 'H' !in v && !HasSuffix(Lower(u), "aut")
    ensures !Mentions(u + "h" + v, "auth")
  {
    LowerLacks(u, 'h');
    LowerLacks(v, 'h');
    LowerConcat(u + "h", v);
    LowerConcat(u, "h");
    assert Lower("h") == "h";
    LastRuneOnce(Lower(u), Lower(v), "auth");
  }

  /** The pair, `Path=/` and the school's `Domain` say no `auth`: their only `h` follows `pat`. */
  lemma RootedNoAuth(pair: string)
    requires Quiet(pair)
    ensures !Mentions(pair + ";" + RootAttr + ";" + SchoolAttr, "auth")
  {
    var u, v := pair + "; Pat", "=/;" + SchoolAttr;
    assert pair + ";" + RootAttr + ";" + SchoolAttr == u + "h" + v;
    assert 'h' !in pair && 'H' !in pair;
    LowerConcat(pair, "; Pat");
    assert Lower("; Pat") == "; pat";
    assert Lower(u)[|Lower(u)| - 3..] == "pat";
    AuthAbsent(u, v);
  }

  lemma RootedLetters(pair: string)
    requires Quiet(pair)
    ensures forall r :: r in "cCgGsS" ==> r !in pair + ";" + RootAttr + ";" + SchoolAttr
  {
    var c := pair + ";" + RootAttr + ";" + SchoolAttr;
    forall r | r in "cCgGsS" ensures r !in c {
      MissingFromJoin(r, pair, ";", RootAttr, ";", SchoolAttr);
    }
  }

  lemma MissingFromJoin(r: char, a: string, b: string, c: string, d: string, e: string)
    requires r !in a && r !in b && r !in c && r !in d && r !in e
    ensures r !in a + b + c + d + e
  {
  }

  /** A cookie that is not a login cookie and has no `SameSite` just gets `SameSite=None`. */
  lemma SecureLostCross(pair: string)
    requires Quiet(pair)
    ensures CrossSite(pair + ";" + RootAttr + ";" + SchoolAttr) == pair + ";" + RootAttr + ";" + SchoolAttr + "; SameSite=None"
  {
    var c := pair + ";" + RootAttr + ";" + SchoolAttr;
    RootedLetters(pair);
    Unsaid(c, "samesite", 0);
    Unsaid(c, "jsessionid", 1);
    Unsaid(c, "login", 2);
    Unsaid(c, "session", 0);
    Unsaid(c, "user", 1);
    RootedNoAuth(pair);
  }

  lemma CrossUnsaid(pair: string)
    requires Quiet(pair)
    ensures !Mentions(pair + ";" + RootAttr + ";" + SchoolAttr + "; SameSite=None", "secure")
  {
    RootedLetters(pair);
    Unsaid(pair + ";" + RootAttr + ";" + SchoolAttr + "; SameSite=None", "secure", 2);
  }

  lemma FindingText(pair: string)
    ensures pair + "; Path=/secure" == pair + ";" + DeepPath
  {
  }

  /**
   * The copy as written of a plain cookie whose path says `secure` never
   * says `secure` itself; the corrected copy always does. `x=1; Path=/secure`
   * is one.
   */
  lemma SecureLost(pair: string)
    requires Quiet(pair)
    ensures UtaipeiCookieAsWritten(pair + "; Path=/secure") == pair + ";" + RootAttr + ";" + SchoolAttr + "; SameSite=None"
    ensures !Mentions(UtaipeiCookieAsWritten(pair + "; Path=/secure"), "secure")
    ensures Mentions(UtaipeiCookie(pair + "; Path=/secure"), "secure")
  {
    assert ';' !in pair;
    FindingText(pair);
    SecureLostScoped(pair);
    SecureLostRooted(pair);
    SecureLostCross(pair);
    CrossUnsaid(pair);
    UtaipeiSecure(pair + "; Path=/secure");
  }
}
