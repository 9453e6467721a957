/**
 * Reasoning about markup as the table patterns scan it. In a stretch of
 * text where every `<` opens one of a known set of tags, a literal that
 * opens with `<` and that none of those tags can be read as does not occur;
 * so a pattern led by such a literal matches nowhere in the stretch, and a
 * lazy `(.*?)` runs exactly to the first closing tag after it.
 */
module Markup {
  import opened Optional
  import opened Text
  import opened Pattern

  /** Every `<` in `s` opens one of `tags`. */
  ghost predicate Tagged(s: string, tags: set<string>) {
    forall j :: 0 <= j < |s| && s[j] == '<' ==> exists tg :: tg in tags && tg <= s[j..]
  }

  /** None of `tags` can be read where `t` starts, nor `t` where one of them starts. */
  ghost predicate Foreign(tags: set<string>, t: string) {
    forall tg :: tg in tags ==> !Comparable(tg, t)
  }

  /** Two prefixes of the same text are comparable. */
  lemma PrefixesComparable(x: string, y: string, z: string)
    ensures x <= z && y <= z ==> Comparable(x, y)
  {
    if x <= z && y <= z {
      if |x| <= |y| {
        assert x == z[..|x|] == y[..|x|];
      } else {
        assert y == z[..|y|] == x[..|y|];
      }
    }
  }

  lemma TaggedText(s: string, tags: set<string>)
    requires '<' !in s
    ensures Tagged(s, tags)
  {
    assert forall j :: 0 <= j < |s| ==> s[j] in s;
  }

  /** A tag with no further `<` in it, taken from the set. */
  lemma TaggedTag(t: string, tags: set<string>)
    requires |t| > 0 && t in tags && '<' !in t[1..]
    ensures Tagged(t, tags)
  {
    assert forall j :: 0 < j < |t| ==> t[j] == t[1..][j - 1];
    assert t <= t[0..];
  }

  lemma TaggedAppend(a: string, b: string, tags: set<string>)
    requires Tagged(a, tags) && Tagged(b, tags)
    ensures Tagged(a + b, tags)
  {
    var s := a + b;
    forall j | 0 <= j < |s| && s[j] == '<' ensures exists tg :: tg in tags && tg <= s[j..] {
      if j < |a| {
        assert s[j] == a[j];
        var tg :| tg in tags && tg <= a[j..];
        assert s[j..] == a[j..] + b;
        assert s[j..][..|tg|] == tg;
      } else {
        assert s[j] == b[j - |a|];
        assert s[j..] == b[j - |a|..];
      }
    }
  }

  lemma TaggedWider(s: string, tags: set<string>, more: set<string>)
    requires Tagged(s, tags) && tags <= more
    ensures Tagged(s, more)
  {
  }

  /**
   * In the part `a` of `x + a + u`, where `a` is tagged with tags foreign
   * to `c`, the literal `c` does not start.
   */
  lemma TaggedNoLit(x: string, a: string, u: string, tags: set<string>, c: string)
    requires Tagged(a, tags) && |c| > 0 && c[0] == '<' && Foreign(tags, c)
    ensures forall j :: |x| <= j < |x| + |a| ==> !LitAt(false, c, x + a + u, j)
  {
    var s := x + a + u;
    forall j | |x| <= j < |x| + |a| ensures !LitAt(false, c, s, j) {
      LitAtExact(c, s, j);
      var i := j - |x|;
      assert s[j..] == a[i..] + u;
      assert s[j] == a[i];
      if a[i] == '<' {
        var tg :| tg in tags && tg <= a[i..];
        assert tg <= s[j..] by {
          assert s[j..][..|tg|] == tg;
        }
        PrefixesComparable(tg, c, s[j..]);
      } else {
        PrefixAt(c, s[j..], 0);
      }
    }
  }

  /** A pattern led by such a literal matches nowhere in the tagged front part of a text. */
  lemma TaggedNoMatch(re: Regex, a: string, u: string, tags: set<string>)
    requires WellFormed(re) && !re.fold && Lead(re) == '<'
    requires Tagged(a, tags) && Foreign(tags, re.pieces[0].text)
    ensures forall j :: 0 <= j < |a| ==> Match(re.fold, re.pieces, a + u, j).None?
  {
    TaggedNoLit([], a, u, tags, re.pieces[0].text);
    assert [] + a + u == a + u;
  }

  /** Replacing passes over a tagged front part in which the pattern cannot start. */
  lemma TaggedSkip(re: Regex, a: string, u: string, tags: set<string>, k: nat, f: Replacer)
    requires WellFormed(re) && !re.fold && Lead(re) == '<'
    requires Tagged(a, tags) && Foreign(tags, re.pieces[0].text)
    ensures ReplaceFrom(re, a + u, 0, k, f) == a + ReplaceFrom(re, u, 0, k, f)
  {
    TaggedNoMatch(re, a, u, tags);
    ReplaceFromRegion(re, a, u, k, f);
  }

  /** ... and leaves a text that is tagged all through as it is. */
  lemma TaggedKept(re: Regex, a: string, tags: set<string>, k: nat, f: Replacer)
    requires WellFormed(re) && !re.fold && Lead(re) == '<'
    requires Tagged(a, tags) && Foreign(tags, re.pieces[0].text)
    ensures ReplaceFrom(re, a, 0, k, f) == a
  {
    assert a + "" == a;
    TaggedSkip(re, a, "", tags, k, f);
  }

  /** Finding passes over a tagged front part in the same way. */
  lemma TaggedFindSkip(re: Regex, a: string, u: string, tags: set<string>)
    requires WellFormed(re) && !re.fold && Lead(re) == '<'
    requires Tagged(a, tags) && Foreign(tags, re.pieces[0].text)
    ensures FindAllFrom(re, a + u, 0) == FindAllFrom(re, u, 0)
  {
    TaggedNoMatch(re, a, u, tags);
    FindAllRegion(re, a, u);
  }

  /** ... and finds nothing in a text that is tagged all through. */
  lemma TaggedFindNone(re: Regex, a: string, tags: set<string>)
    requires WellFormed(re) && !re.fold && Lead(re) == '<'
    requires Tagged(a, tags) && Foreign(tags, re.pieces[0].text)
    ensures FindAllFrom(re, a, 0) == []
  {
    assert a + "" == a;
    TaggedFindSkip(re, a, "", tags);
  }

  // --------------------------------------------------------- element hits

  /** The literal `c` at `p`, then nothing. */
  lemma LitEnd(c: string, s: string, p: nat)
    requires p <= |s|
    ensures Match(false, [Lit(c)], s, p) == if LitAt(false, c, s, p) then Some(Hit(p + |c|, [])) else None
  {
    LitStep(false, c, [], s, p);
    assert [Lit(c)] + [] == [Lit(c)];
  }

  /** `(.*?)c` with the group closed before `c`: a lazy star over `dot`, a mark, the literal. */
  function Lazy(dot: Class, c: string): seq<Piece> {
    [Star(dot, true)] + ([Mark] + [Lit(c)])
  }

  /**
   * The lazy star from `p` stops where `c` first starts, `m` runes on, when
   * the runes before it are in `dot`.
   */
  lemma LazyToClose(dot: Class, c: string, s: string, p: nat, m: nat)
    requires p + m + |c| <= |s|
    requires forall j :: p <= j < p + m ==> In(dot, s[j])
    requires forall j :: p <= j < p + m ==> !LitAt(false, c, s, j)
    requires LitAt(false, c, s, p + m)
    ensures Match(false, Lazy(dot, c), s, p) == Some(Hit(p + m + |c|, [p + m]))
  {
    var rest := [Mark] + [Lit(c)];
    StarStep(false, dot, true, rest, s, p);
    RunAtLeast(dot, s, p, p + m);
    var n := Run(dot, s, p);
    forall j | p <= j < p + m ensures Match(false, rest, s, j).None? {
      MarkStep(false, [Lit(c)], s, j);
      LitEnd(c, s, j);
    }
    MarkStep(false, [Lit(c)], s, p + m);
    LitEnd(c, s, p + m);
    assert [p + m] + [] == [p + m];
    ShortestFirst(false, rest, s, p, 0, n, m);
  }

  /** `>(.*?)c` at `x`: the `>`, then the group up to where `c` first starts. */
  lemma CloseThenGroup(dot: Class, c: string, s: string, x: nat, m: nat)
    requires x < |s| && s[x] == '>'
    requires x + 1 + m + |c| <= |s|
    requires forall j :: x + 1 <= j < x + 1 + m ==> In(dot, s[j])
    requires forall j :: x + 1 <= j < x + 1 + m ==> !LitAt(false, c, s, j)
    requires LitAt(false, c, s, x + 1 + m)
    ensures Match(false, [Lit(">")] + ([Mark] + Lazy(dot, c)), s, x)
      == Some(Hit(x + 1 + m + |c|, [x + 1, x + 1 + m]))
  {
    var q := x + 1;
    var lazy := Lazy(dot, c);
    assert LitAt(false, ">", s, x);
    LitStep(false, ">", [Mark] + lazy, s, x);
    LazyToClose(dot, c, s, q, m);
    MarkStep(false, lazy, s, q);
    assert [q] + [q + m] == [q, q + m];
  }

  /** `open[^>]*>(.*?)c`, where the star runs over `dot`: `open` is a tag's opening, such as `<table`. */
  function Element(open: string, dot: Class, c: string): (re: Regex)
    requires |open| > 0 && open[0] == '<'
    ensures WellFormed(re) && !re.fold && Lead(re) == '<' && re.pieces[0].text == open
  {
    Regex(false, [Lit(open)] + ([Star(NoneOf(">"), false)] + ([Lit(">")] + ([Mark] + Lazy(dot, c)))))
  }

  /** `open` and `>` stand at `p` and `c` first follows `m` runes after them, with those runes in `dot`. */
  predicate ElementFrame(open: string, dot: Class, c: string, s: string, p: nat, m: nat) {
    && |open| > 0 && open[0] == '<' && p <= |s|
    && open + ">" <= s[p..]
    && p + |open| + 1 + m + |c| <= |s|
    && (forall j :: p + |open| + 1 <= j < p + |open| + 1 + m ==> In(dot, s[j]))
    && (forall j :: p + |open| + 1 <= j < p + |open| + 1 + m ==> !LitAt(false, c, s, j))
    && LitAt(false, c, s, p + |open| + 1 + m)
  }

  /**
   * Where an element is framed at `p`, the element pattern matches up to
   * the end of `c`, and its group is the `m` runes.
   */
  lemma ElementAt(open: string, dot: Class, c: string, s: string, p: nat, m: nat)
    requires ElementFrame(open, dot, c, s, p, m)
    ensures var q := p + |open| + 1;
      Match(false, Element(open, dot, c).pieces, s, p) == Some(Hit(q + m + |c|, [q, q + m]))
  {
    OpenAt(open, s, p);
    CloseThenGroup(dot, c, s, p + |open|, m);
    OpenStep(open, dot, c, s, p, Hit(p + |open| + 1 + m + |c|, [p + |open| + 1, p + |open| + 1 + m]));
  }

  /** `open` then `>` written at `p`. */
  lemma OpenAt(open: string, s: string, p: nat)
    requires p <= |s| && open + ">" <= s[p..]
    ensures LitAt(false, open, s, p) && p + |open| < |s| && s[p + |open|] == '>'
  {
    assert LitAt(false, open, s, p) by {
      LitAtExact(open, s, p);
      assert s[p..][..|open|] == (open + ">")[..|open|] == open;
    }
    PrefixAt(open + ">", s[p..], |open|);
  }

  /**
   * An element written `open>`, then a stretch `x` tagged with tags foreign
   * to the closing tag `c`, then `c`: the element pattern matches it whole,
   * and its group is `x`.
   */
  lemma ElementText(open: string, dot: Class, c: string, x: string, w: string, tags: set<string>)
    requires |open| > 0 && open[0] == '<' && |c| > 0 && c[0] == '<'
    requires Tagged(x, tags) && Foreign(tags, c)
    requires forall j :: 0 <= j < |x| ==> In(dot, x[j])
    ensures var q := |open| + 1;
      Match(false, Element(open, dot, c).pieces, open + ">" + x + (c + w), 0) == Some(Hit(q + |x| + |c|, [q, q + |x|]))
  {
    ElementFramed(open, dot, c, x, w, tags);
    ElementAt(open, dot, c, open + ">" + x + (c + w), 0, |x|);
  }

  /** The element written `open>`, `x`, `c` is framed at the start. */
  lemma ElementFramed(open: string, dot: Class, c: string, x: string, w: string, tags: set<string>)
    requires |open| > 0 && open[0] == '<' && |c| > 0 && c[0] == '<'
    requires Tagged(x, tags) && Foreign(tags, c)
    requires forall j :: 0 <= j < |x| ==> In(dot, x[j])
    ensures ElementFrame(open, dot, c, open + ">" + x + (c + w), 0, |x|)
  {
    var p := open + ">";
    TaggedNoLit(p, x, c + w, tags, c);
    Layout(p, x, c, w);
    RunesIn(dot, p, x, c + w);
  }

  /** Where `p` and `c` stand in the concatenation of `p`, `x`, `c`, `w`. */
  lemma Layout(p: string, x: string, c: string, w: string)
    ensures var s := p + x + (c + w);
      p <= s[0..] && LitAt(false, c, s, |p| + |x|)
  {
    var s := p + x + (c + w);
    assert s[|p| + |x|..] == c + w;
    LitAtExact(c, s, |p| + |x|);
    assert s[0..] == s;
  }

  /** The runes of `x`, all in `dot`, are in it where `x` stands between `p` and `u`. */
  lemma RunesIn(dot: Class, p: string, x: string, u: string)
    requires forall j :: 0 <= j < |x| ==> In(dot, x[j])
    ensures forall j :: |p| <= j < |p| + |x| ==> In(dot, (p + x + u)[j])
  {
    var s := p + x + u;
    forall j | |p| <= j < |p| + |x| ensures In(dot, s[j]) {
      assert s[j] == x[j - |p|];
    }
  }

  /** `ElementText` for an element written `b`, `x`, `c`, where `b` is `open>`. */
  lemma ElementWhole(open: string, b: string, dot: Class, c: string, x: string, w: string, tags: set<string>)
    requires |open| > 0 && open[0] == '<' && |c| > 0 && c[0] == '<' && b == open + ">"
    requires Tagged(x, tags) && Foreign(tags, c)
    requires forall j :: 0 <= j < |x| ==> In(dot, x[j])
    ensures Match(false, Element(open, dot, c).pieces, (b + (x + c)) + w, 0)
      == Some(Hit(|b + (x + c)|, [|b|, |b| + |x|]))
  {
    ElementText(open, dot, c, x, w, tags);
    Regroup(b, x, c, w);
  }

  lemma Regroup(b: string, x: string, c: string, w: string)
    ensures (b + (x + c)) + w == b + x + (c + w)
  {
  }

  /** The opening literal and `[^>]*` before a `>` at the end of `open`. */
  lemma OpenStep(open: string, dot: Class, c: string, s: string, p: nat, h: Hit)
    requires |open| > 0 && p + |open| < |s| && s[p + |open|] == '>' && LitAt(false, open, s, p)
    requires Match(false, [Lit(">")] + ([Mark] + Lazy(dot, c)), s, p + |open|) == Some(h)
    ensures Match(false, [Lit(open)] + ([Star(NoneOf(">"), false)] + ([Lit(">")] + ([Mark] + Lazy(dot, c)))), s, p)
      == Some(h)
  {
    var x := p + |open|;
    var tail := [Lit(">")] + ([Mark] + Lazy(dot, c));
    assert Run(NoneOf(">"), s, x) == 0;
    StarStep(false, NoneOf(">"), false, tail, s, x);
    LitStep(false, open, [Star(NoneOf(">"), false)] + tail, s, p);
  }

  /** `<td([^>]*)>(.*?)</td>`, with the attributes as the first group. */
  const CellPattern := Regex(false, [Lit("<td")] + ([Mark] + ([Star(NoneOf(">"), false)] + ([Mark]
                                    + ([Lit(">")] + ([Mark] + Lazy(NotNewline, "</" + "td>")))))))

  /** `<td`, then `a` attribute runes without `>`, then `>` at `p`. */
  predicate OpeningFrame(s: string, p: nat, a: nat) {
    && p + 3 + a < |s| && "<td" <= s[p..]
    && (forall j :: p + 3 <= j < p + 3 + a ==> s[j] != '>')
    && s[p + 3 + a] == '>'
  }

  /** After the `>` at `x`, `m` runes without a line break or `</td>`, then `</td>`. */
  predicate TextFrame(s: string, x: nat, m: nat) {
    && x + 1 + m + 5 <= |s|
    && (forall j :: x + 1 <= j < x + 1 + m ==> s[j] != '\n')
    && (forall j :: x + 1 <= j < x + 1 + m ==> !LitAt(false, "</td>", s, j))
    && LitAt(false, "</td>", s, x + 1 + m)
  }

  /**
   * A cell `<td` + `a` + `>` at `p` whose attributes hold no `>` and whose
   * text of `m` runes holds no line break and is followed by `</td>`.
   */
  lemma CellAt(s: string, p: nat, a: nat, m: nat)
    requires OpeningFrame(s, p, a) && TextFrame(s, p + 3 + a, m)
    ensures var q := p + 4 + a;
      Match(false, CellPattern.pieces, s, p) == Some(Hit(q + m + 5, [p + 3, p + 3 + a, q, q + m]))
  {
    var x, q := p + 3 + a, p + 4 + a;
    CellText(s, x, m);
    AttributesStep(s, p, a, [Lit(">")] + ([Mark] + Lazy(NotNewline, "</" + "td>")), Hit(q + m + 5, [q, q + m]));
    MarksJoin(p + 3, x, q, q + m);
  }

  /** The `>` at `x` and a cell's text of `m` runes up to its `</td>`. */
  lemma CellText(s: string, x: nat, m: nat)
    requires x < |s| && s[x] == '>' && TextFrame(s, x, m)
    ensures Match(false, [Lit(">")] + ([Mark] + Lazy(NotNewline, "</" + "td>")), s, x)
      == Some(Hit(x + 1 + m + 5, [x + 1, x + 1 + m]))
  {
    assert "</" + "td>" == "</td>";
    CloseThenGroup(NotNewline, "</td>", s, x, m);
  }

  lemma MarksJoin(a: nat, b: nat, c: nat, d: nat)
    ensures [a, b] + [c, d] == [a, b, c, d]
  {
  }

  /** `<td([^>]*)` before a `>` that ends `a` attribute runes. */
  lemma AttributesStep(s: string, p: nat, a: nat, rest: seq<Piece>, h: Hit)
    requires OpeningFrame(s, p, a)
    requires Match(false, rest, s, p + 3 + a) == Some(h)
    ensures Match(false, [Lit("<td")] + ([Mark] + ([Star(NoneOf(">"), false)] + ([Mark] + rest))), s, p)
      == Some(Hit(h.end, [p + 3, p + 3 + a] + h.marks))
  {
    var front := [Star(NoneOf(">"), false)] + ([Mark] + rest);
    AttributesTail(s, p + 3, p + 3 + a, rest, h);
    assert LitAt(false, "<td", s, p) by {
      LitAtExact("<td", s, p);
    }
    LitStep(false, "<td", [Mark] + front, s, p);
  }

  /** `([^>]*)` from `q` to the `>` at `x`, then `rest`. */
  lemma AttributesTail(s: string, q: nat, x: nat, rest: seq<Piece>, h: Hit)
    requires q <= x < |s| && s[x] == '>'
    requires forall j :: q <= j < x ==> s[j] != '>'
    requires Match(false, rest, s, x) == Some(h)
    ensures Match(false, [Mark] + ([Star(NoneOf(">"), false)] + ([Mark] + rest)), s, q)
      == Some(Hit(h.end, [q, x] + h.marks))
  {
    AttributesRun(s, q, x, rest, h);
    MarkStep(false, [Star(NoneOf(">"), false)] + ([Mark] + rest), s, q);
    assert [q] + ([x] + h.marks) == [q, x] + h.marks;
  }

  lemma AttributesRun(s: string, q: nat, x: nat, rest: seq<Piece>, h: Hit)
    requires q <= x < |s| && s[x] == '>'
    requires forall j :: q <= j < x ==> s[j] != '>'
    requires Match(false, rest, s, x) == Some(h)
    ensures Match(false, [Star(NoneOf(">"), false)] + ([Mark] + rest), s, q) == Some(Hit(h.end, [x] + h.marks))
  {
    MarkStep(false, rest, s, x);
    CloseRun(s, q, x);
    GreedyTo(NoneOf(">"), [Mark] + rest, s, q, x, Hit(h.end, [x] + h.marks));
  }

  /** The runes before the first `>` are those `[^>]` takes. */
  lemma CloseRun(s: string, q: nat, x: nat)
    requires q <= x < |s| && s[x] == '>'
    requires forall j :: q <= j < x ==> s[j] != '>'
    ensures !In(NoneOf(">"), s[x]) && forall j :: q <= j < x ==> In(NoneOf(">"), s[j])
  {
  }

  /** A greedy star whose run ends at `e`, where the rest matches. */
  lemma GreedyTo(c: Class, rest: seq<Piece>, s: string, pos: nat, e: nat, h: Hit)
    requires pos <= e < |s| && !In(c, s[e])
    requires forall j :: pos <= j < e ==> In(c, s[j])
    requires Match(false, rest, s, e) == Some(h)
    ensures Match(false, [Star(c, false)] + rest, s, pos) == Some(h)
  {
    RunExact(c, s, pos, e);
    assert pos + (e - pos) == e;
    assert Longest(false, rest, s, pos, e - pos) == Some(h);
    StarStep(false, c, false, rest, s, pos);
  }
}
