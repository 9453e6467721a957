/**
 * `extractCode`: the code a course page passes to its `of_display(...)`
 * call, which the page parser hands back to the app. The call is found
 * with the pattern of_display\s*\(\s*['"]([^'"]+)['"]\s*\) and the code
 * is its one captured group: a non-empty run of runes other than quotes,
 * between quotes, inside the parentheses.
 */
module Extraction {
  import opened Optional
  import opened Text
  import opened Pattern

  /** The two quote marks the call may use. */
  const Quotes := "'\""

  /** of_display\s*\(\s*['"]([^'"]+)['"]\s*\) */
  const DisplayCall := Regex(false,
    [Lit("of_display")] + ([Star(Space, false)] + ([Lit("(")] + ([Star(Space, false)] + CallArgument))))

  /** The quoted, captured code and the closing parenthesis. */
  const CallArgument: seq<Piece> :=
    [One(OneOf(Quotes))] + ([Mark] + ([One(NoneOf(Quotes))] + ([Star(NoneOf(Quotes), false)] + CallEnd)))

  const CallEnd: seq<Piece> :=
    [Mark] + ([One(OneOf(Quotes))] + ([Star(Space, false)] + [Lit(")")]))

  /** A group slice is a part of the text it was cut from. */
  lemma SliceContained(s: string, a: nat, b: nat)
    ensures Slice(s, a, b) != "" ==> Contains(s, Slice(s, a, b))
  {
    if a <= b <= |s| {
      assert s[a..b] <= s[a..];
      ContainsAt(s, s[a..b], a);
    }
  }

  /**
   * `extractCode`: the group of the first call in `html`, or "" when
   * there is none. What it returns is always a part of the page.
   */
  function ExtractCode(html: string): (r: string)
    ensures r != "" ==> Contains(html, r) && MatchString(DisplayCall, html)
  {
    var m := FindStringSubmatch(DisplayCall, html);
    if |m| > 1 then
      var f := FindFrom(DisplayCall, html, 0).value;
      SliceContained(html, f.hit.marks[0], f.hit.marks[1]);
      m[1]
    else ""
  }

  // ------------------------------------------------------------ properties

  /** A page that never says "of_display" yields no code. */
  lemma NoCallNoCode(html: string)
    requires !Contains(html, "of_display")
    ensures ExtractCode(html) == ""
  {
    AbsentLiteralNoMatch(DisplayCall, html, 0);
  }

  /** The call text for code `c` between quotes `q` and `e`. */
  function Call(q: char, c: string, e: char): string {
    "of_display(" + [q] + c + [e] + ")"
  }

  /** How the call's runes sit in `g + (Call(q, c, e) + h)`, from `|g|` on. */
  lemma {:induction false} CallLayout(g: string, q: char, c: string, e: char, h: string)
    ensures var s, p := g + (Call(q, c, e) + h), |g|;
      && |s| == p + 14 + |c| + |h| && s[p..p + 10] == "of_display" && s[p + 10] == '(' && s[p + 11] == q
      && s[p + 12..p + 12 + |c|] == c && s[p + 12 + |c|] == e && s[p + 13 + |c|] == ')'
  {
    var s := g + (Call(q, c, e) + h);
    assert s == g + ("of_display(" + ([q] + (c + ([e] + (")" + h)))));
  }

  /** The closing quote and parenthesis match with no spaces, recording where the code ends. */
  lemma {:induction false} CallEndAt(s: string, p: nat)
    requires p + 1 < |s| && s[p] in Quotes && s[p + 1] == ')'
    ensures Match(false, CallEnd, s, p) == Some(Hit(p + 2, [p]))
  {
    var close := [Star(Space, false)] + [Lit(")")];
    assert Run(Space, s, p + 1) == 0;
    assert [Lit(")")] == [Lit(")")] + [];
    LitStep(false, ")", [], s, p + 1);
    StarStep(false, Space, false, [Lit(")")], s, p + 1);
    assert Match(false, close, s, p + 1) == Some(Hit(p + 2, []));
    assert ([One(OneOf(Quotes))] + close)[1..] == close;
    assert Match(false, [One(OneOf(Quotes))] + close, s, p) == Some(Hit(p + 2, []));
    MarkStep(false, [One(OneOf(Quotes))] + close, s, p);
    assert CallEnd == [Mark] + ([One(OneOf(Quotes))] + close);
    assert [p] + [] == [p];
  }

  /** The quoted code `s[p + 1..e]` and what follows it match, capturing the code. */
  lemma {:induction false} ArgumentAt(s: string, p: nat, a: nat, e: nat, n: nat)
    requires a == p + 1 && n == e + 2 && p + 1 < e && e + 1 < |s| && s[p] in Quotes && s[e] in Quotes && s[e + 1] == ')'
    requires Unquoted(s, p + 1, e)
    ensures Match(false, CallArgument, s, p) == Some(Hit(n, [a, e]))
  {
    var tail := [Star(NoneOf(Quotes), false)] + CallEnd;
    CodeRun(s, p, e);
    assert Match(false, [One(NoneOf(Quotes))] + tail, s, p + 1) == Some(Hit(e + 2, [e])) by {
      assert ([One(NoneOf(Quotes))] + tail)[1..] == tail;
    }
    MarkStep(false, [One(NoneOf(Quotes))] + tail, s, p + 1);
    assert [p + 1] + [e] == [p + 1, e];
    assert CallArgument == [One(OneOf(Quotes))] + ([Mark] + ([One(NoneOf(Quotes))] + tail));
    assert CallArgument[1..] == [Mark] + ([One(NoneOf(Quotes))] + tail);
  }

  /** The greedy run of non-quotes stops at the closing quote, where the end of the call matches. */
  lemma {:induction false} CodeRun(s: string, p: nat, e: nat)
    requires p + 1 < e && e + 1 < |s| && s[e] in Quotes && s[e + 1] == ')'
    requires Unquoted(s, p + 1, e)
    ensures Match(false, [Star(NoneOf(Quotes), false)] + CallEnd, s, p + 2) == Some(Hit(e + 2, [e]))
  {
    UnquotedRun(s, p + 2, e);
    StarStep(false, NoneOf(Quotes), false, CallEnd, s, p + 2);
    CallEndAt(s, e);
    LongestAt(false, CallEnd, s, p + 2, e - (p + 2), e);
  }

  /** A greedy star that can take all `k` runes up to `e` takes them all when the rest matches at `e`. */
  lemma LongestAt(fold: bool, rest: seq<Piece>, s: string, pos: nat, k: nat, e: nat)
    requires pos + k == e <= |s| && Match(fold, rest, s, e).Some?
    ensures Longest(fold, rest, s, pos, k) == Match(fold, rest, s, e)
  {
  }

  /** No quote between `a` and `b`. */
  predicate Unquoted(s: string, a: nat, b: nat)
    requires a <= b <= |s|
  {
    forall j :: a <= j < b ==> s[j] !in Quotes
  }

  /** A stretch of non-quotes ending at a quote is exactly what `[^'"]*` takes. */
  lemma {:induction false} UnquotedRun(s: string, a: nat, b: nat)
    requires 0 < a <= b < |s| && s[b] in Quotes && Unquoted(s, a - 1, b)
    ensures Run(NoneOf(Quotes), s, a) == b - a
  {
    RunExact(NoneOf(Quotes), s, a, b);
  }

  /** The whole call for code `c`, after `g`. */
  lemma {:induction false} CallMatch(g: string, q: char, c: string, e: char, h: string)
    requires q in Quotes && e in Quotes && |c| > 0
    requires forall j :: 0 <= j < |c| ==> c[j] !in Quotes
    ensures Match(false, DisplayCall.pieces, g + (Call(q, c, e) + h), |g|) == Some(Hit(|g| + 14 + |c|, [|g| + 12, |g| + 12 + |c|]))
  {
    CallTextOf(g, q, c, e, h);
    CallMatchAt(g + (Call(q, c, e) + h), |g|, |c|);
  }

  lemma {:induction false} CallTextOf(g: string, q: char, c: string, e: char, h: string)
    requires q in Quotes && e in Quotes && |c| > 0
    requires forall j :: 0 <= j < |c| ==> c[j] !in Quotes
    ensures CallText(g + (Call(q, c, e) + h), |g|, |c|)
  {
    CallLayout(g, q, c, e, h);
    CodeUnquoted(g + (Call(q, c, e) + h), |g| + 12, c);
  }

  /** The call `of_display('...')` for an `n`-rune code at `p`, without spaces. */
  predicate CallText(s: string, p: nat, n: nat) {
    && 0 < n && p + 14 + n <= |s| && s[p..p + 10] == "of_display" && s[p + 10] == '('
    && s[p + 11] in Quotes && s[p + 12 + n] in Quotes && s[p + 13 + n] == ')'
    && Unquoted(s, p + 12, p + 12 + n)
  }

  lemma {:induction false} CallMatchAt(s: string, p: nat, n: nat)
    requires CallText(s, p, n)
    ensures Match(false, DisplayCall.pieces, s, p) == Some(Hit(p + 14 + n, [p + 12, p + 12 + n]))
  {
    CallFront(s, p);
    ArgumentAt(s, p + 11, p + 12, p + 12 + n, p + 14 + n);
  }

  /** A code with no quotes, placed at `a`. */
  lemma {:induction false} CodeUnquoted(s: string, a: nat, c: string)
    requires a + |c| <= |s| && s[a..a + |c|] == c
    requires forall j :: 0 <= j < |c| ==> c[j] !in Quotes
    ensures Unquoted(s, a, a + |c|)
  {
    forall j | a <= j < a + |c| ensures s[j] !in Quotes {
      assert s[j] == s[a..a + |c|][j - a];
    }
  }

  /** "of_display(" with no spaces: the front of the pattern brings the match to the opening quote. */
  lemma {:induction false} CallFront(s: string, p: nat)
    requires p + 11 < |s| && s[p..p + 10] == "of_display" && s[p + 10] == '(' && s[p + 11] in Quotes
    ensures Match(false, DisplayCall.pieces, s, p) == Match(false, CallArgument, s, p + 11)
  {
    var rest := [Lit("(")] + ([Star(Space, false)] + CallArgument);
    assert "of_display" <= s[p..];
    LitAtExact("of_display", s, p);
    LitStep(false, "of_display", [Star(Space, false)] + rest, s, p);
    StarStep(false, Space, false, rest, s, p + 10);
    assert Run(Space, s, p + 10) == 0;
    LitAtExact("(", s, p + 10);
    assert "(" <= s[p + 10..];
    LitStep(false, "(", [Star(Space, false)] + CallArgument, s, p + 10);
    StarStep(false, Space, false, CallArgument, s, p + 11);
    assert Run(Space, s, p + 11) == 0;
  }

  /**
   * A page whose first "of_display" opens a call for code `c` yields `c`,
   * whatever comes before and after the call.
   */
  lemma {:induction false} CodeOfCall(g: string, q: char, c: string, e: char, h: string)
    requires !Contains(g, "of_display")
    requires q in Quotes && e in Quotes && |c| > 0
    requires forall j :: 0 <= j < |c| ==> c[j] !in Quotes
    ensures ExtractCode(g + (Call(q, c, e) + h)) == c
  {
    var s, p := g + (Call(q, c, e) + h), |g|;
    CallFirst(g, q, c, e, h);
    CodeSlice(g, q, c, e, h);
    GroupOfFound(s, p, p + 14 + |c|, p + 12, p + 12 + |c|);
  }

  /** The call after `g` is the first match in the page. */
  lemma {:induction false} CallFirst(g: string, q: char, c: string, e: char, h: string)
    requires !Contains(g, "of_display")
    requires q in Quotes && e in Quotes && |c| > 0
    requires forall j :: 0 <= j < |c| ==> c[j] !in Quotes
    ensures FindFrom(DisplayCall, g + (Call(q, c, e) + h), 0) == Some(Found(|g|, Hit(|g| + 14 + |c|, [|g| + 12, |g| + 12 + |c|])))
  {
    var u := Call(q, c, e) + h;
    CallMatch(g, q, c, e, h);
    CallOpens(q, c, e, h);
    forall j | 0 <= j < |g| ensures Match(false, DisplayCall.pieces, g + u, j).None? {
      NoCallBefore(g, u, j);
    }
    FindFromSkip(DisplayCall, g + u, 0, |g|);
    FoundAt(DisplayCall, g + u, |g|, Hit(|g| + 14 + |c|, [|g| + 12, |g| + 12 + |c|]));
  }

  lemma {:induction false} CallOpens(q: char, c: string, e: char, h: string)
    ensures "of_display" <= Call(q, c, e) + h
  {
  }

  /** A match where the search starts is the one found. */
  lemma {:induction false} FoundAt(re: Regex, s: string, i: nat, h: Hit)
    requires i < |s| && Match(re.fold, re.pieces, s, i) == Some(h)
    ensures FindFrom(re, s, i) == Some(Found(i, h))
  {
  }

  /**
   * Before a text opening with "of_display", in a front that never says
   * it, no call starts: "of_display" overlaps no shifted copy of itself,
   * as its only `o` is its first rune.
   */
  lemma {:induction false} NoCallBefore(g: string, u: string, j: nat)
    requires !Contains(g, "of_display") && "of_display" <= u && j < |g|
    ensures Match(false, DisplayCall.pieces, g + u, j).None?
  {
    NoNameBefore(g, u, j);
    LitAtExact("of_display", g + u, j);
    LitStep(false, "of_display", [Star(Space, false)] + ([Lit("(")] + ([Star(Space, false)] + CallArgument)), g + u, j);
  }

  lemma {:induction false} NoNameBefore(g: string, u: string, j: nat)
    requires !Contains(g, "of_display") && "of_display" <= u && j < |g|
    ensures !("of_display" <= (g + u)[j..])
  {
    var s, w := g + u, "of_display";
    if j + 10 <= |g| {
      assert s[j..j + 10] == g[j..j + 10];
      assert !(w <= g[j..]);
      assert g[j..][..10] == g[j..j + 10];
      assert s[j..][..10] == s[j..j + 10];
    } else {
      var k := |g| - j;
      assert s[j..][k] == s[|g|] == u[0] == 'o';
      assert w[k] != 'o';
    }
  }

  /** The code sits at 12 runes into the call. */
  lemma {:induction false} CodeSlice(g: string, q: char, c: string, e: char, h: string)
    ensures Slice(g + (Call(q, c, e) + h), |g| + 12, |g| + 12 + |c|) == c
  {
    CallLayout(g, q, c, e, h);
  }

  /** The code `extractCode` returns for a first match with one group, from `a` to `b`. */
  lemma {:induction false} GroupOfFound(s: string, i: nat, n: nat, a: nat, b: nat)
    requires FindFrom(DisplayCall, s, 0) == Some(Found(i, Hit(n, [a, b])))
    ensures ExtractCode(s) == Slice(s, a, b)
  {
    assert Groups(s, [a, b]) == [Slice(s, a, b)];
  }
}
