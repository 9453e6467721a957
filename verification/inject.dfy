/**
 * `optimizeHTML`: what the proxy does to every HTML page it lets through.
 * In order, it points the upstream links at the proxy, strips the
 * handlers that block the context menu, and gives a page that lacks one a
 * viewport tag after its first `<head>`. It then places a payload: the
 * no-cache meta tags, the stylesheet and, on a frameset page, the icon
 * link and the script. The payload goes before every `</head>`; failing
 * that, after every `<body…>` tag; failing that, in front of the page.
 * Last, it labels the cells of its tables.
 */
module Inject {
  import opened Optional
  import opened Text
  import opened Pattern
  import opened Template
  import Rewrite
  import Tables

  // ------------------------------------------------------------ the payload

  /** The embedded stylesheet and script (`CombinedCSS`, `InjectedJS`), taken as given. */
  datatype Assets = Assets(css: string, js: string)

  /** The start of a viewport tag, as the page is searched for one after lowering. */
  const ViewportProbe := "<meta name=\"viewport\""

  /** The viewport tag the proxy adds. */
  const Viewport := ViewportProbe + " content=\"width=device-width," + "initial-scale=1\">"

  /** The meta tags that forbid caching and indexing, each on its own line. */
  const CacheControlMeta := "\n<meta http-equiv=\"Cache-Control\"" + " content=\"no-cache, no-store," + " must-revalidate\">"
  const PragmaMeta := "\n<meta http-equiv=\"Pragma\"" + " content=\"no-cache\">"
  const ExpiresMeta := "\n<meta http-equiv=\"Expires\"" + " content=\"0\">"
  const RobotsMeta := "\n<meta name=\"robots\"" + " content=\"noindex, nofollow," + " noarchive, nosnippet, noimageindex\">\n"
  const NoCache := CacheControlMeta + PragmaMeta + ExpiresMeta + RobotsMeta

  /** The icon link a frameset page gets. */
  const Icon := "<link rel='icon'" + " href='/assets/img/icon.png'" + " type='image/x-icon'>"

  function Style(css: string): string {
    "\n<style>\n" + css + "\n</style>"
  }

  function Script(js: string): string {
    "\n<script>\n" + js + "\n</script>"
  }

  /** The script goes in on a frameset page only. */
  function ScriptPart(a: Assets, frameset: bool): string {
    if frameset then Script(a.js) else ""
  }

  /** The template each `</head>` is replaced by. */
  function HeadPayload(a: Assets, frameset: bool): string {
    NoCache + (if frameset then Icon else "") + Style(a.css) + ScriptPart(a, frameset) + "</head>"
  }

  /** What follows each `<body…>` tag when the page has no `</head>`. */
  function BodyPayload(a: Assets, frameset: bool): string {
    NoCache + Style(a.css) + ScriptPart(a, frameset)
  }

  /** What goes in front of a page with neither. */
  function FrontPayload(a: Assets, frameset: bool): string {
    NoCache + Viewport + Style(a.css) + ScriptPart(a, frameset)
  }

  // ------------------------------------------------ case-insensitive tags

  /**
   * A rune for which matching under `(?i)` means the same as comparing
   * after `strings.ToLower`: ASCII, not upper case, and neither `s` (which
   * `(?i)` also matches with U+017F) nor `i` (which lowering also makes of
   * U+0130).
   */
  predicate Plain(c: char) {
    c as int < 128 && !('A' <= c <= 'Z') && c != 's' && c != 'i'
  }

  lemma SameIsLower(c: char, x: char)
    requires Plain(c)
    ensures Same(true, c, x) <==> LowerChar(x) == c
  {
  }

  /** The lowered text has `t` at `i`. */
  predicate LowerAt(s: string, t: string, i: nat) {
    i + |t| <= |s| && forall j :: 0 <= j < |t| ==> LowerChar(s[i + j]) == t[j]
  }

  /** For a literal of plain runes, `(?i)` matching is comparing after lowering. */
  lemma FoldedIsLower(t: string, s: string, i: nat)
    requires forall j :: 0 <= j < |t| ==> Plain(t[j])
    ensures LitAt(true, t, s, i) <==> LowerAt(s, t, i)
  {
    if i + |t| <= |s| {
      forall j | 0 <= j < |t| ensures Same(true, t[j], s[i + j]) <==> LowerChar(s[i + j]) == t[j] {
        SameIsLower(t[j], s[i + j]);
      }
    }
  }

  /** A lowered text has `t` at `i` exactly where `t` starts in the lowered text. */
  lemma LowerAtContains(s: string, t: string, i: nat)
    requires i <= |s|
    ensures LowerAt(s, t, i) <==> t <= Lower(s)[i..]
  {
    if i + |t| <= |s| && t <= Lower(s)[i..] {
      forall j | 0 <= j < |t| ensures LowerChar(s[i + j]) == t[j] {
        assert Lower(s)[i..][j] == Lower(s)[i + j];
      }
    }
  }

  const CloseTag := "</head>"
  const OpenTag := "<body"

  /** A `</head>` in any case starts at `i`. */
  predicate CloseAt(s: string, i: nat) {
    LowerAt(s, CloseTag, i)
  }

  /** A `<body` in any case starts at `i`. */
  predicate OpenAt(s: string, i: nat) {
    LowerAt(s, OpenTag, i)
  }

  /** `(?i)</head>` */
  const HeadClose := Regex(true, [Lit(CloseTag)])

  /** `(?i)<body[^>]*>` */
  const BodyOpen := Regex(true, [Lit(OpenTag)] + ([Star(NoneOf(">"), false)] + [Lit(">")]))

  /** A `<body…>` tag from `i` to `e`: `<body` in any case, then runes other than `>`, then `>`. */
  predicate BodyTagAt(s: string, i: nat, e: nat) {
    OpenAt(s, i) && i + 5 < e <= |s| && s[e - 1] == '>' && forall j :: i + 5 <= j < e - 1 ==> s[j] != '>'
  }

  lemma CloseTagPlain()
    ensures forall j :: 0 <= j < |CloseTag| ==> Plain(CloseTag[j])
  {
  }

  lemma OpenTagPlain()
    ensures forall j :: 0 <= j < |OpenTag| ==> Plain(OpenTag[j])
  {
  }

  /** `(?i)</head>` matches exactly where a `</head>` in any case starts, and takes its seven runes. */
  lemma CloseMatch(s: string, i: nat)
    requires i <= |s|
    ensures Match(true, HeadClose.pieces, s, i) == if CloseAt(s, i) then Some(Hit(i + 7, [])) else None
  {
    CloseTagPlain();
    FoldedIsLower(CloseTag, s, i);
  }

  /** `(?i)<body` reads a `<body` in any case. */
  lemma OpenLit(s: string, i: nat)
    ensures LitAt(true, OpenTag, s, i) <==> OpenAt(s, i)
  {
    OpenTagPlain();
    FoldedIsLower(OpenTag, s, i);
  }

  /** `(?i)<body[^>]*>` matches nowhere but at a `<body` in any case. */
  lemma OpenNoMatch(s: string, i: nat)
    requires i <= |s| && !OpenAt(s, i)
    ensures Match(true, BodyOpen.pieces, s, i).None?
  {
    OpenLit(s, i);
    LitStep(true, OpenTag, [Star(NoneOf(">"), false)] + [Lit(">")], s, i);
  }

  /** A `>` read as the last piece. */
  lemma CloseAngle(s: string, e: nat)
    requires e < |s| && s[e] == '>'
    ensures Match(true, [Lit(">")], s, e) == Some(Hit(e + 1, []))
  {
    LitStep(true, ">", [], s, e);
    assert [Lit(">")] == [Lit(">")] + [];
  }

  /** After `<body`, `[^>]*>` runs to the first `>` and takes it. */
  lemma AttributesMatch(s: string, p: nat, e: nat)
    requires p < e <= |s| && s[e - 1] == '>' && forall j :: p <= j < e - 1 ==> s[j] != '>'
    ensures Match(true, [Star(NoneOf(">"), false)] + [Lit(">")], s, p) == Some(Hit(e, []))
  {
    var tail := [Lit(">")];
    forall j | p <= j < e - 1 ensures In(NoneOf(">"), s[j]) {
      assert s[j] != '>';
    }
    RunExact(NoneOf(">"), s, p, e - 1);
    var k := e - 1 - p;
    CloseAngle(s, e - 1);
    assert Longest(true, tail, s, p, k) == Some(Hit(e, []));
    StarStep(true, NoneOf(">"), false, tail, s, p);
  }

  /** ... and at a `<body…>` tag it takes the whole tag. */
  lemma OpenMatch(s: string, i: nat, e: nat)
    requires BodyTagAt(s, i, e)
    ensures Match(true, BodyOpen.pieces, s, i) == Some(Hit(e, []))
  {
    OpenLit(s, i);
    AttributesMatch(s, i + 5, e);
    LitStep(true, OpenTag, [Star(NoneOf(">"), false)] + [Lit(">")], s, i);
  }

  // --------------------------------------------------------- placement

  /** Each match is kept and followed by `p`. */
  function Appender(p: string): Replacer {
    (k: nat, m: string, g: seq<string>) => m + p
  }

  /** Each `</head>`, in any case, replaced by `t` as it is. */
  function BeforeCloses(s: string, t: string): string {
    ReplaceFrom(HeadClose, s, 0, 0, Inserter(t))
  }

  /** `ReplaceAllString` of `(?i)</head>`: each one replaced by the template `t` expanded. */
  function BeforeClosesAsWritten(s: string, t: string): string {
    ReplaceFrom(HeadClose, s, 0, 0, Expander(t))
  }

  /** `ReplaceAllStringFunc` of `(?i)<body[^>]*>` that puts `p` after each tag. */
  function AfterOpens(s: string, p: string): string {
    ReplaceFrom(BodyOpen, s, 0, 0, Appender(p))
  }

  /**
   * Where the payload goes: before each `</head>`, else after each
   * `<body…>`, else in front. The `</head>` replacement is a template, as
   * `ReplaceAllString` reads it.
   */
  function Placed(s: string, a: Assets, frameset: bool): string {
    if MatchString(HeadClose, s) then BeforeClosesAsWritten(s, HeadPayload(a, frameset))
    else if MatchString(BodyOpen, s) then AfterOpens(s, BodyPayload(a, frameset))
    else FrontPayload(a, frameset) + s
  }

  /** The placement with the payload put before each `</head>` as it is. */
  function PlacedFixed(s: string, a: Assets, frameset: bool): string {
    if MatchString(HeadClose, s) then BeforeCloses(s, HeadPayload(a, frameset))
    else if MatchString(BodyOpen, s) then AfterOpens(s, BodyPayload(a, frameset))
    else FrontPayload(a, frameset) + s
  }

  /** A text with no `</head>` in any case is left as it is, whatever replaces them. */
  lemma NoCloseIdle(s: string, f: Replacer)
    requires forall j :: 0 <= j < |s| ==> !CloseAt(s, j)
    ensures ReplaceFrom(HeadClose, s, 0, 0, f) == s
  {
    forall j | 0 <= j < |s| ensures Match(true, HeadClose.pieces, s, j).None? {
      CloseMatch(s, j);
    }
    NoMatchIdentity(HeadClose, s, f);
  }

  lemma InserterUncounted(t: string)
    ensures forall n: nat, l: nat, m, g :: Inserter(t)(n, m, g) == Inserter(t)(l, m, g)
  {
  }

  lemma AppenderUncounted(p: string)
    ensures forall n: nat, l: nat, m, g :: Appender(p)(n, m, g) == Appender(p)(l, m, g)
  {
  }

  /** The first `</head>` is replaced as `f` says, and the rest of the text is treated in the same way. */
  lemma FirstClose(s: string, i: nat, f: Replacer)
    requires CloseAt(s, i)
    requires forall j :: 0 <= j < i ==> !CloseAt(s, j)
    requires forall n: nat, l: nat, m, g :: f(n, m, g) == f(l, m, g)
    ensures ReplaceFrom(HeadClose, s, 0, 0, f)
      == s[..i] + f(0, s[i..i + 7], []) + ReplaceFrom(HeadClose, s[i + 7..], 0, 0, f)
  {
    forall j | 0 <= j < i ensures Match(true, HeadClose.pieces, s, j).None? {
      CloseMatch(s, j);
    }
    CloseMatch(s, i);
    ReplaceFirstHit(HeadClose, s, i, Hit(i + 7, []), f);
  }

  /** The first `</head>` is replaced by `t`, and the rest of the text is treated in the same way. */
  lemma BeforeFirstClose(s: string, i: nat, t: string)
    requires CloseAt(s, i)
    requires forall j :: 0 <= j < i ==> !CloseAt(s, j)
    ensures BeforeCloses(s, t) == s[..i] + t + BeforeCloses(s[i + 7..], t)
  {
    InserterUncounted(t);
    FirstClose(s, i, Inserter(t));
  }

  /** As written, the first `</head>` is replaced by the template expanded for it. */
  lemma ExpandedFirstClose(s: string, i: nat, t: string)
    requires CloseAt(s, i)
    requires forall j :: 0 <= j < i ==> !CloseAt(s, j)
    ensures BeforeClosesAsWritten(s, t) == s[..i] + Expand(t, s[i..i + 7]) + BeforeClosesAsWritten(s[i + 7..], t)
  {
    ExpanderUncounted(t);
    FirstClose(s, i, Expander(t));
  }

  /** A text with no `<body` in any case is left as it is. */
  lemma AfterNoOpen(s: string, p: string)
    requires forall j :: 0 <= j < |s| ==> !OpenAt(s, j)
    ensures AfterOpens(s, p) == s
  {
    forall j | 0 <= j < |s| ensures Match(true, BodyOpen.pieces, s, j).None? {
      OpenNoMatch(s, j);
    }
    NoMatchIdentity(BodyOpen, s, Appender(p));
  }

  /** `p` goes after the first `<body…>` tag, and the rest of the text is treated in the same way. */
  lemma AfterFirstOpen(s: string, i: nat, e: nat, p: string)
    requires BodyTagAt(s, i, e)
    requires forall j :: 0 <= j < i ==> !OpenAt(s, j)
    ensures AfterOpens(s, p) == s[..e] + p + AfterOpens(s[e..], p)
  {
    forall j | 0 <= j < i ensures Match(true, BodyOpen.pieces, s, j).None? {
      OpenNoMatch(s, j);
    }
    OpenMatch(s, i, e);
    AppenderUncounted(p);
    ReplaceFirstHit(BodyOpen, s, i, Hit(e, []), Appender(p));
    assert Appender(p)(0, s[i..e], []) == s[i..e] + p;
    assert s[..i] + s[i..e] == s[..e];
    Assoc(s[..i], s[i..e], p);
  }

  /** A page with a `</head>` in any case gets the payload before each of them. */
  lemma PlacedBeforeHead(s: string, a: Assets, frameset: bool, i: nat)
    requires CloseAt(s, i)
    ensures Placed(s, a, frameset) == BeforeClosesAsWritten(s, HeadPayload(a, frameset))
    ensures PlacedFixed(s, a, frameset) == BeforeCloses(s, HeadPayload(a, frameset))
  {
    CloseMatch(s, i);
  }

  /** A page with no `</head>` and a `<body…>` tag gets the payload after each such tag. */
  lemma PlacedAfterBody(s: string, a: Assets, frameset: bool, i: nat, e: nat)
    requires forall j :: 0 <= j < |s| ==> !CloseAt(s, j)
    requires BodyTagAt(s, i, e)
    ensures Placed(s, a, frameset) == AfterOpens(s, BodyPayload(a, frameset))
    ensures PlacedFixed(s, a, frameset) == AfterOpens(s, BodyPayload(a, frameset))
  {
    forall j | 0 <= j < |s| ensures Match(true, HeadClose.pieces, s, j).None? {
      CloseMatch(s, j);
    }
    OpenMatch(s, i, e);
  }

  /** A page with neither `</head>` nor `<body` gets the payload, with a viewport tag, in front. */
  lemma PlacedInFront(s: string, a: Assets, frameset: bool)
    requires forall j :: 0 <= j < |s| ==> !CloseAt(s, j) && !OpenAt(s, j)
    ensures Placed(s, a, frameset) == FrontPayload(a, frameset) + s
    ensures PlacedFixed(s, a, frameset) == FrontPayload(a, frameset) + s
  {
    forall j | 0 <= j < |s|
      ensures Match(true, HeadClose.pieces, s, j).None? && Match(true, BodyOpen.pieces, s, j).None?
    {
      CloseMatch(s, j);
      OpenNoMatch(s, j);
    }
  }

  // ------------------------------------------------------------ viewport

  /** A page that names no viewport gets one after its first `<head>`. */
  function WithViewport(s: string): string {
    if !Contains(Lower(s), ViewportProbe) then ReplaceFirst(s, "<head>", "<head>" + Viewport) else s
  }

  /** A prefix that ends within the front part is a prefix of the front part. */
  lemma PrefixWithin(x: string, y: string, p: string, r: nat)
    requires r + |p| <= |x| && r <= |x + y| && p <= (x + y)[r..]
    ensures p <= x[r..]
  {
    assert (x + y)[r..r + |p|] == x[r..r + |p|];
  }

  lemma DropFront(a: string, t: string)
    ensures (a + t)[|a|..] == t
  {
  }

  /** `IndexFrom` finds the first occurrence. */
  lemma FirstOccurrence(s: string, p: string, i: nat)
    requires i <= |s| && p <= s[i..]
    requires forall j :: 0 <= j < i ==> !(p <= s[j..])
    ensures IndexFrom(s, p, 0) == Some(i)
  {
  }

  /** The first `<head>` of `a + "<head>" + b`, when none starts earlier, is the one after `a`. */
  lemma FirstHead(a: string, b: string)
    requires !Contains(a + "<head", "<head>")
    ensures IndexFrom(a + ("<head>" + b), "<head>", 0) == Some(|a|)
  {
    var x, y, p := a + "<head", ">" + b, "<head>";
    var s := a + (p + b);
    assert "<head" + ">" == p;
    Assoc("<head", ">", b);
    Assoc(a, "<head", y);
    DropFront(a, p + b);
    forall j | 0 <= j < |a| ensures !(p <= s[j..]) {
      if p <= s[j..] {
        PrefixWithin(x, y, p, j);
        ContainsAt(x, p, j);
      }
    }
    FirstOccurrence(s, p, |a|);
  }

  /** A page with no viewport gets the tag right after its first `<head>`. */
  lemma ViewportAfterHead(a: string, b: string)
    requires !Contains(Lower(a + ("<head>" + b)), ViewportProbe)
    requires !Contains(a + "<head", "<head>")
    ensures WithViewport(a + ("<head>" + b)) == a + ("<head>" + (Viewport + b))
  {
    var s := a + ("<head>" + b);
    FirstHead(a, b);
    assert s[|a| + 6..] == b;
    Assoc("<head>", Viewport, b);
    Assoc(a, "<head>" + Viewport, b);
  }

  lemma ProbeLower()
    ensures forall j :: 0 <= j < |ViewportProbe| ==> LowerChar(ViewportProbe[j]) == ViewportProbe[j]
  {
  }

  /** After the viewport tag goes in, the page names a viewport. */
  lemma ViewportNamed(x: string, y: string)
    ensures Contains(Lower(x + ("<head>" + Viewport) + y), ViewportProbe)
  {
    var t, i := x + ("<head>" + Viewport) + y, |x| + 6;
    ProbeLower();
    forall j | 0 <= j < |ViewportProbe| ensures LowerChar(t[i + j]) == ViewportProbe[j] {
      assert t[i + j] == Viewport[j];
    }
    assert LowerAt(t, ViewportProbe, i);
    LowerAtContains(t, ViewportProbe, i);
    ContainsAt(Lower(t), ViewportProbe, i);
  }

  /** Adding the viewport tag a second time changes nothing. */
  lemma ViewportIdempotent(s: string)
    ensures WithViewport(WithViewport(s)) == WithViewport(s)
  {
    if !Contains(Lower(s), ViewportProbe) {
      match IndexFrom(s, "<head>", 0)
      case None =>
      case Some(i) =>
        ViewportNamed(s[..i], s[i + 6..]);
    }
  }

  // ------------------------------------------------ context-menu blockers

  const Menu := "oncontextmenu"

  /** The four literal blockers, removed in this order. */
  const MenuAttributes: seq<string> := [
    Menu + "=\"CancelEvent (event, 'oncontextmenu')\"",
    Menu + "='CancelEvent (event, \"oncontextmenu\")'",
    Menu + "=\"return false\"",
    Menu + "='return false'" ]

  /** `(?i)oncontextmenu\s*=\s*["'][^"']*["']` */
  const MenuHandler := Regex(true, [Lit(Menu)] + ([Star(Space, false)] + ([Lit("=")] + ([Star(Space, false)]
    + ([One(OneOf("\"'"))] + ([Star(NoneOf("\"'"), false)] + [One(OneOf("\"'"))]))))))

  /** Every occurrence of each of `ps`, in turn, removed. */
  function RemoveAll(s: string, ps: seq<string>): string
    decreases |ps|
  {
    if |ps| == 0 then s else RemoveAll(ReplaceAll(s, ps[0], ""), ps[1..])
  }

  /** The literal blockers removed, then any remaining quoted `oncontextmenu` handler. */
  function StripContextMenu(s: string): string {
    ReplaceAllString(MenuHandler, RemoveAll(s, MenuAttributes), "")
  }

  lemma MenuPlain()
    ensures forall j :: 0 <= j < |Menu| ==> Plain(Menu[j]) && LowerChar(Menu[j]) == Menu[j]
  {
  }

  /** An `oncontextmenu` in the text is one in the lowered text. */
  lemma MenuLowered(s: string, i: nat)
    requires i <= |s| && Menu <= s[i..]
    ensures Contains(Lower(s), Menu)
  {
    MenuPlain();
    forall j | 0 <= j < |Menu| ensures LowerChar(s[i + j]) == Menu[j] {
      PrefixAt(Menu, s[i..], j);
    }
    LowerAtContains(s, Menu, i);
  }

  /** Without `oncontextmenu` the literal blockers are not there to remove. */
  lemma {:induction false} RemoveAllIdle(s: string, ps: seq<string>)
    requires !Contains(Lower(s), Menu)
    requires forall k :: 0 <= k < |ps| ==> Menu <= ps[k]
    ensures RemoveAll(s, ps) == s
    decreases |ps|
  {
    if |ps| > 0 {
      if Contains(s, ps[0]) {
        var i :| 0 <= i <= |s| && ps[0] <= s[i..];
        assert Menu <= s[i..];
        MenuLowered(s, i);
      }
      ReplaceAllAbsent(s, ps[0], "");
      RemoveAllIdle(s, ps[1..]);
    }
  }

  /** A page that nowhere says `oncontextmenu`, in any case, loses nothing. */
  lemma StripIdle(s: string)
    requires !Contains(Lower(s), Menu)
    ensures StripContextMenu(s) == s
  {
    RemoveAllIdle(s, MenuAttributes);
    if FindFrom(MenuHandler, s, 0).Some? {
      var f := FindFrom(MenuHandler, s, 0).value;
      MatchNeedsLiteral(true, MenuHandler.pieces, s, f.start, 0);
      var i :| f.start <= i && LitAt(true, Menu, s, i);
      MenuPlain();
      FoldedIsLower(Menu, s, i);
      LowerAtContains(s, Menu, i);
    }
    NoMatchReplaceAll(MenuHandler, s, "");
  }

  // ------------------------------------------------------------ the page

  /** The page with links pointed at the proxy and the context-menu blockers stripped. */
  function Unblocked(public: string, html: string): string {
    StripContextMenu(Rewrite.ReplaceTargetUrls(public, html))
  }

  /**
   * `optimizeHTML`: links pointed at the proxy, context-menu blockers
   * stripped, a viewport tag added where the page has none, the payload
   * placed, and the tables labelled. Whether the page is a frameset is
   * decided after the blockers are stripped.
   */
  function OptimizeHtml(public: string, a: Assets, html: string): string {
    var unblocked := Unblocked(public, html);
    var frameset := Contains(Lower(unblocked), "<frameset");
    Tables.AddTableDataLabels(Placed(WithViewport(unblocked), a, frameset))
  }

  /** The page with the payload placed as it is. */
  function OptimizeHtmlFixed(public: string, a: Assets, html: string): string {
    var unblocked := Unblocked(public, html);
    var frameset := Contains(Lower(unblocked), "<frameset");
    Tables.AddTableDataLabels(PlacedFixed(WithViewport(unblocked), a, frameset))
  }

  // ------------------------------------------------- pages with a head

  /** No `</head>`, in any case, anywhere in `s`. */
  predicate NoClose(s: string) {
    forall j :: 0 <= j < |s| ==> !CloseAt(s, j)
  }

  /** A text without `/` has no `</head>`. */
  lemma SlashFree(s: string)
    requires '/' !in s
    ensures NoClose(s)
  {
    forall j | 0 <= j < |s| ensures !CloseAt(s, j) {
      if j + 1 < |s| {
        assert s[j + 1] in s;
        assert CloseTag[1] == '/';
      }
    }
  }

  lemma TooShort(s: string)
    requires |s| < 7
    ensures NoClose(s)
  {
  }

  /** A `</head>` at `j` of `u + w` that ends inside `u`, or starts inside `w`, is one of `u` or of `w`. */
  lemma CloseInPart(u: string, w: string, j: nat)
    ensures j + 7 <= |u| ==> (CloseAt(u + w, j) <==> CloseAt(u, j))
    ensures |u| <= j ==> (CloseAt(u + w, j) <==> CloseAt(w, j - |u|))
  {
    var s := u + w;
    if j + 7 <= |u| {
      forall k | j <= k < j + 7 ensures s[k] == u[k] {
      }
    }
    if |u| <= j && j + 7 <= |s| {
      forall k | j <= k < j + 7 ensures s[k] == w[k - |u|] {
      }
    }
  }

  /** Before a part that opens with `<`, a close-free text stays close-free. */
  lemma CloseBefore(u: string, w: string)
    requires NoClose(u) && |w| > 0 && w[0] == '<'
    ensures forall j :: 0 <= j < |u| ==> !CloseAt(u + w, j)
  {
    forall j | 0 <= j < |u| ensures !CloseAt(u + w, j) {
      CloseInPart(u, w, j);
      if j + 7 > |u| {
        var m := |u| - j;
        assert (u + w)[j + m] == '<';
        assert 1 <= m < 7 && CloseTag[m] != '<';
      }
    }
  }

  /** Two close-free texts, the second opening with `<`, make a close-free text. */
  lemma JoinOpen(u: string, w: string)
    requires NoClose(u) && NoClose(w) && |w| > 0 && w[0] == '<'
    ensures NoClose(u + w)
  {
    CloseBefore(u, w);
    forall j | |u| <= j < |u + w| ensures !CloseAt(u + w, j) {
      CloseInPart(u, w, j);
    }
  }

  /** Two close-free texts, the first with `<` only at its start and at least seven runes long, make a close-free text. */
  lemma JoinAfter(u: string, w: string)
    requires NoClose(u) && NoClose(w) && |u| >= 7 && '<' !in u[1..]
    ensures NoClose(u + w)
  {
    forall j | 0 <= j < |u + w| ensures !CloseAt(u + w, j) {
      CloseInPart(u, w, j);
      if j < |u| < j + 7 {
        assert (u + w)[j + 0] == u[1..][j - 1];
        assert CloseTag[0] == '<';
      }
    }
  }

  lemma ProbeRunes()
    ensures '/' !in ViewportProbe && '<' !in ViewportProbe[1..]
  {
    assert forall i :: 0 <= i < 21 ==> "<meta name=\"viewport\""[i] != '/';
    assert forall i :: 0 <= i < 20 ==> "meta name=\"viewport\""[i] != '<';
  }

  lemma ContentRunes()
    ensures var c := " content=\"width=device-width," + "initial-scale=1\">"; '/' !in c && '<' !in c
  {
    assert forall i :: 0 <= i < 29 ==> " content=\"width=device-width,"[i] != '/' && " content=\"width=device-width,"[i] != '<';
    assert forall i :: 0 <= i < 17 ==> "initial-scale=1\">"[i] != '/' && "initial-scale=1\">"[i] != '<';
  }

  /** The viewport tag holds no `</head>` and has `<` only at its start. */
  lemma ViewportTag()
    ensures NoClose(Viewport) && '<' !in Viewport[1..] && |Viewport| >= 7
  {
    ProbeRunes();
    ContentRunes();
    assert Viewport[1..] == ViewportProbe[1..] + " content=\"width=device-width," + "initial-scale=1\">";
    SlashFree(Viewport);
  }

  /** A literal `</head>` after `u`. */
  lemma CloseHere(u: string, z: string)
    ensures var s := u + ("</head>" + z);
      && CloseAt(s, |u|) && s[|u|..|u| + 7] == "</head>" && s[|u| + 7..] == z
  {
    var s := u + ("</head>" + z);
    forall m | 0 <= m < 7 ensures LowerChar(s[|u| + m]) == CloseTag[m] {
      assert s[|u| + m] == CloseTag[m];
    }
  }

  /** The text up to `</head>` of a page that had a viewport tag put after its `<head>` holds no `</head>`. */
  lemma HeadNoClose(x: string, y: string)
    requires NoClose(x) && NoClose(y)
    ensures NoClose(x + ("<head>" + (Viewport + y)))
  {
    ViewportTag();
    JoinAfter(Viewport, y);
    TooShort("<head>");
    JoinOpen("<head>", Viewport + y);
    JoinOpen(x, "<head>" + (Viewport + y));
  }

  /** A close-free text, `</head>`, and a close-free rest: the payload replaces that one `</head>`. */
  lemma OneClose(u: string, z: string, t: string)
    requires NoClose(u) && NoClose(z)
    ensures BeforeCloses(u + ("</head>" + z), t) == u + (t + z)
  {
    var v := u + ("</head>" + z);
    CloseBefore(u, "</head>" + z);
    CloseHere(u, z);
    BeforeFirstClose(v, |u|, t);
    NoCloseIdle(z, Inserter(t));
    Assoc(u, t, z);
  }

  /** As written, that one `</head>` is replaced by the payload expanded as a template. */
  lemma OneCloseAsWritten(u: string, z: string, t: string)
    requires NoClose(u) && NoClose(z)
    ensures BeforeClosesAsWritten(u + ("</head>" + z), t) == u + (Expand(t, "</head>") + z)
  {
    var v := u + ("</head>" + z);
    CloseBefore(u, "</head>" + z);
    CloseHere(u, z);
    ExpandedFirstClose(v, |u|, t);
    NoCloseIdle(z, Expander(t));
    Assoc(u, Expand(t, "</head>"), z);
  }

  /** The page with a viewport tag after `<head>`, cut at its one `</head>`. */
  lemma HeadFrame(x: string, y: string, z: string)
    requires NoClose(x) && NoClose(y) && NoClose(z)
    ensures var u := x + ("<head>" + (Viewport + y));
      && x + ("<head>" + (Viewport + (y + ("</head>" + z)))) == u + ("</head>" + z)
      && NoClose(u) && CloseAt(u + ("</head>" + z), |u|)
  {
    var u := x + ("<head>" + (Viewport + y));
    Nest(x, "<head>", Viewport, y, "</head>" + z);
    HeadNoClose(x, y);
    CloseHere(u, z);
  }

  /** As written, with one `</head>` after `<head>` and the viewport tag, the expanded payload goes just before it. */
  lemma PlacedInHead(a: Assets, x: string, y: string, z: string)
    requires NoClose(x) && NoClose(y) && NoClose(z)
    ensures Placed(x + ("<head>" + (Viewport + (y + ("</head>" + z)))), a, false)
      == x + ("<head>" + (Viewport + (y + (Expand(HeadPayload(a, false), "</head>") + z))))
  {
    var u := x + ("<head>" + (Viewport + y));
    var t := HeadPayload(a, false);
    HeadFrame(x, y, z);
    PlacedBeforeHead(u + ("</head>" + z), a, false, |u|);
    OneCloseAsWritten(u, z, t);
    Nest(x, "<head>", Viewport, y, Expand(t, "</head>") + z);
  }

  /** With one `</head>` after `<head>` and the viewport tag, the payload goes just before it as it is. */
  lemma PlacedInHeadFixed(a: Assets, x: string, y: string, z: string)
    requires NoClose(x) && NoClose(y) && NoClose(z)
    ensures PlacedFixed(x + ("<head>" + (Viewport + (y + ("</head>" + z)))), a, false)
      == x + ("<head>" + (Viewport + (y + (HeadPayload(a, false) + z))))
  {
    var u := x + ("<head>" + (Viewport + y));
    var t := HeadPayload(a, false);
    HeadFrame(x, y, z);
    PlacedBeforeHead(u + ("</head>" + z), a, false, |u|);
    OneClose(u, z, t);
    Nest(x, "<head>", Viewport, y, t + z);
  }

  /** What a plain page holds: no upstream origin, no context-menu blocker, no frameset, no viewport tag. */
  predicate PlainHead(html: string) {
    && Rewrite.NoOrigin(html) && !Contains(Lower(html), Menu)
    && !Contains(Lower(html), "<frameset") && !Contains(Lower(html), ViewportProbe)
  }

  /** A plain page is left as it is until the viewport tag goes after its first `<head>`. */
  lemma PlainUnblocked(public: string, x: string, y: string, z: string)
    requires PlainHead(x + ("<head>" + (y + ("</head>" + z))))
    requires !Contains(x + "<head", "<head>")
    ensures var html := x + ("<head>" + (y + ("</head>" + z)));
      && Unblocked(public, html) == html && !Contains(Lower(html), "<frameset")
      && WithViewport(html) == x + ("<head>" + (Viewport + (y + ("</head>" + z))))
  {
    var html := x + ("<head>" + (y + ("</head>" + z)));
    Rewrite.NothingToRewrite(public, html);
    StripIdle(html);
    ViewportAfterHead(x, y + ("</head>" + z));
  }

  /**
   * A plain page with one `<head>` and one `</head>` gets the viewport tag
   * after `<head>` and, as written, the payload expanded as a template
   * before `</head>`; then its tables are labelled.
   */
  lemma PlainPage(public: string, a: Assets, x: string, y: string, z: string)
    requires PlainHead(x + ("<head>" + (y + ("</head>" + z))))
    requires !Contains(x + "<head", "<head>")
    requires NoClose(x) && NoClose(y) && NoClose(z)
    ensures OptimizeHtml(public, a, x + ("<head>" + (y + ("</head>" + z))))
      == Tables.AddTableDataLabels(x + ("<head>" + (Viewport + (y + (Expand(HeadPayload(a, false), "</head>") + z)))))
  {
    PlainUnblocked(public, x, y, z);
    PlacedInHead(a, x, y, z);
  }

  /** The same page with the payload placed as it is gets the payload itself before `</head>`. */
  lemma PlainPageFixed(public: string, a: Assets, x: string, y: string, z: string)
    requires PlainHead(x + ("<head>" + (y + ("</head>" + z))))
    requires !Contains(x + "<head", "<head>")
    requires NoClose(x) && NoClose(y) && NoClose(z)
    ensures OptimizeHtmlFixed(public, a, x + ("<head>" + (y + ("</head>" + z))))
      == Tables.AddTableDataLabels(x + ("<head>" + (Viewport + (y + (HeadPayload(a, false) + z)))))
  {
    PlainUnblocked(public, x, y, z);
    PlacedInHeadFixed(a, x, y, z);
  }

  /** Regrouping four parts and a tail. */
  lemma Nest(a: string, b: string, c: string, d: string, t: string)
    ensures a + (b + (c + (d + t))) == (a + (b + (c + d))) + t
  {
    Assoc(c, d, t);
    Assoc(b, c + d, t);
    Assoc(a, b + (c + d), t);
  }

  // ------------------------------------------------ the payload template

  lemma CacheControlPlain()
    ensures '$' !in CacheControlMeta
  {
    assert forall i :: 0 <= i < 33 ==> "\n<meta http-equiv=\"Cache-Control\""[i] != '$';
    assert forall i :: 0 <= i < 29 ==> " content=\"no-cache, no-store,"[i] != '$';
    assert forall i :: 0 <= i < 18 ==> " must-revalidate\">"[i] != '$';
  }

  lemma PragmaPlain()
    ensures '$' !in PragmaMeta
  {
    assert forall i :: 0 <= i < 26 ==> "\n<meta http-equiv=\"Pragma\""[i] != '$';
    assert forall i :: 0 <= i < 20 ==> " content=\"no-cache\">"[i] != '$';
  }

  lemma ExpiresPlain()
    ensures '$' !in ExpiresMeta
  {
    assert forall i :: 0 <= i < 27 ==> "\n<meta http-equiv=\"Expires\""[i] != '$';
    assert forall i :: 0 <= i < 13 ==> " content=\"0\">"[i] != '$';
  }

  lemma RobotsPlain()
    ensures '$' !in RobotsMeta
  {
    assert forall i :: 0 <= i < 20 ==> "\n<meta name=\"robots\""[i] != '$';
    assert forall i :: 0 <= i < 28 ==> " content=\"noindex, nofollow,"[i] != '$';
    assert forall i :: 0 <= i < 38 ==> " noarchive, nosnippet, noimageindex\">\n"[i] != '$';
  }

  /** The meta tags hold no `$`. */
  lemma NoCachePlain()
    ensures '$' !in NoCache
  {
    CacheControlPlain();
    PragmaPlain();
    ExpiresPlain();
    RobotsPlain();
  }

  /** The payload for the style sheet `$x` and no frameset, cut before the `$`. */
  lemma DollarPayload()
    ensures HeadPayload(Assets("$x", ""), false) == (NoCache + "\n<style>\n") + ("$x" + "\n</style></head>")
  {
    var t := "\n<style>\n";
    assert Style("$x") == t + ("$x" + "\n</style>");
    Assoc("$x", "\n</style>", "</head>");
    Assoc(t, "$x" + "\n</style>", "</head>");
    Assoc(NoCache, t, "$x" + "\n</style></head>");
  }

  /** `$x` names a group the pattern does not have, so it expands to nothing. */
  lemma DollarDropped(whole: string)
    ensures Expand("$x" + "\n</style></head>", whole) == "\n</style></head>"
  {
    var t := "$x" + "\n</style></head>";
    assert t[1..] == "x" + "\n</style></head>";
    assert NameLength(t[1..]) == 1;
    assert '$' !in "\n</style></head>";
  }

  /**
   * As written, a `$` in the injected style sheet is read as a template
   * reference: with the style sheet `$x` the page `</head>` loses the two
   * runes `$x`, where the style sheet was meant to go in as it is.
   */
  lemma TemplateMangles()
    ensures var a := Assets("$x", "");
      |BeforeClosesAsWritten("</head>", HeadPayload(a, false))| + 2 == |HeadPayload(a, false)|
  {
    var a, s := Assets("$x", ""), "</head>";
    var t := HeadPayload(a, false);
    CloseHere("", "");
    assert s == "" + ("</head>" + "");
    ExpandedFirstClose(s, 0, t);
    NoCloseIdle("", Expander(t));
    NoCachePlain();
    DollarPayload();
    ExpandPlainFront(NoCache + "\n<style>\n", "$x" + "\n</style></head>", s);
    DollarDropped(s);
  }

  // ------------------------------------------------- assets without `$`

  lemma TagsPlain()
    ensures '$' !in "\n<style>\n" && '$' !in "\n</style>" && '$' !in "\n<script>\n" && '$' !in "\n</script>"
    ensures '$' !in "</head>"
  {
    assert forall i :: 0 <= i < 9 ==> "\n<style>\n"[i] != '$';
    assert forall i :: 0 <= i < 9 ==> "\n</style>"[i] != '$';
    assert forall i :: 0 <= i < 10 ==> "\n<script>\n"[i] != '$';
    assert forall i :: 0 <= i < 10 ==> "\n</script>"[i] != '$';
    assert forall i :: 0 <= i < 7 ==> "</head>"[i] != '$';
  }

  lemma IconPlain()
    ensures '$' !in Icon
  {
    assert forall i :: 0 <= i < 16 ==> "<link rel='icon'"[i] != '$';
    assert forall i :: 0 <= i < 28 ==> " href='/assets/img/icon.png'"[i] != '$';
    assert forall i :: 0 <= i < 21 ==> " type='image/x-icon'>"[i] != '$';
  }

  /** Assets without `$` make a payload without `$`. */
  lemma HeadPayloadPlain(a: Assets, frameset: bool)
    requires '$' !in a.css && '$' !in a.js
    ensures '$' !in HeadPayload(a, frameset)
  {
    TagsPlain();
    IconPlain();
    NoCachePlain();
  }

  /** A template without `$` expands to itself for any match. */
  lemma ExpanderInserts(t: string)
    requires '$' !in t
    ensures forall k: nat, m, g :: Expander(t)(k, m, g) == Inserter(t)(k, m, g)
  {
  }

  /** With assets free of `$` the payload goes in the same either way. */
  lemma PlainAssetsPlaced(s: string, a: Assets, frameset: bool)
    requires '$' !in a.css && '$' !in a.js
    ensures Placed(s, a, frameset) == PlacedFixed(s, a, frameset)
  {
    var t := HeadPayload(a, frameset);
    HeadPayloadPlain(a, frameset);
    ExpanderInserts(t);
    ReplaceFromAgree(HeadClose, s, 0, 0, Expander(t), Inserter(t));
  }

  /** With assets free of `$`, `optimizeHTML` as written is the page with the payload placed as it is. */
  lemma PlainAssetsAgree(public: string, a: Assets, html: string)
    requires '$' !in a.css && '$' !in a.js
    ensures OptimizeHtml(public, a, html) == OptimizeHtmlFixed(public, a, html)
  {
    var unblocked := Unblocked(public, html);
    PlainAssetsPlaced(WithViewport(unblocked), a, Contains(Lower(unblocked), "<frameset"));
  }
}
