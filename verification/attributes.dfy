/**
 * A `Set-Cookie` line cut at its semicolons: the `name=value` pair, then
 * each attribute as the text after its `;` (RFC 6265, section 5.2). Every
 * pattern the proxy applies to such a line opens with `;` and never reads
 * past the next one, so replacing its matches is done attribute by
 * attribute; this module states that once, for any such pattern.
 */
module Attributes {
  import opened Optional
  import opened Text
  import opened Pattern

  // ------------------------------------------------------------- lines

  datatype Line = Line(pair: string, attrs: seq<string>)

  /** The attributes written out, each after its `;`. */
  function Tail(attrs: seq<string>): string
    decreases |attrs|
  {
    if |attrs| == 0 then "" else ";" + attrs[0] + Tail(attrs[1..])
  }

  function Render(l: Line): string {
    l.pair + Tail(l.attrs)
  }

  /** The line is cut at every `;`: neither the pair nor an attribute holds one. */
  predicate Unbroken(l: Line) {
    ';' !in l.pair && forall a :: a in l.attrs ==> ';' !in a
  }

  lemma TailCons(a: string, rest: seq<string>)
    ensures Tail([a] + rest) == ";" + a + Tail(rest)
  {
    assert ([a] + rest)[0] == a && ([a] + rest)[1..] == rest;
  }

  lemma {:induction false} TailAppend(xs: seq<string>, ys: seq<string>)
    ensures Tail(xs + ys) == Tail(xs) + Tail(ys)
    decreases |xs|
  {
    if |xs| == 0 {
      assert xs + ys == ys;
    } else {
      assert (xs + ys)[0] == xs[0] && (xs + ys)[1..] == xs[1..] + ys;
      TailAppend(xs[1..], ys);
    }
  }

  /** Appending `"; " + a` to a line appends the attribute ` a`. */
  lemma AppendAttr(l: Line, a: string)
    ensures Render(l) + ";" + a == Render(Line(l.pair, l.attrs + [a]))
  {
    TailAppend(l.attrs, [a]);
    TailCons(a, []);
  }

  /** The attributes of a line start with its `;`, if it has any. */
  lemma TailStart(attrs: seq<string>)
    ensures Tail(attrs) == "" || Tail(attrs)[0] == ';'
  {
  }

  // ------------------------------------------------------------- cutting

  /** The position of the first `;`, or the length when there is none. */
  function Semi(s: string): (i: nat)
    ensures i <= |s| && ';' !in s[..i] && (i < |s| ==> s[i] == ';')
    decreases |s|
  {
    if |s| == 0 || s[0] == ';' then 0
    else
      var j := Semi(s[1..]);
      assert s[..1 + j] == [s[0]] + s[1..][..j];
      1 + j
  }

  /** The attributes of the text `";" + s`. */
  function Pieces(s: string): (attrs: seq<string>)
    ensures |attrs| > 0
    ensures forall a :: a in attrs ==> ';' !in a
    ensures Tail(attrs) == ";" + s
    decreases |s|
  {
    var i := Semi(s);
    if i == |s| then
      TailCons(s, []);
      [s]
    else
      var rest := Pieces(s[i + 1..]);
      PieceSplit(s, i, rest);
      [s[..i]] + rest
  }

  lemma PieceSplit(s: string, i: nat, rest: seq<string>)
    requires i < |s| && s[i] == ';' && Tail(rest) == ";" + s[i + 1..]
    ensures Tail([s[..i]] + rest) == ";" + s
  {
    assert s == s[..i] + ";" + s[i + 1..];
    TailCons(s[..i], rest);
  }

  /** `strings.Split(s, ";")` read as a cookie line. */
  function Cut(s: string): (l: Line)
    ensures Unbroken(l) && Render(l) == s
  {
    var i := Semi(s);
    if i == |s| then
      assert s[..i] == s;
      Line(s, [])
    else
      assert s == s[..i] + ";" + s[i + 1..];
      Line(s[..i], Pieces(s[i + 1..]))
  }

  lemma SemiAt(x: string, y: string)
    requires ';' !in x
    ensures Semi(x + y) == (if |y| > 0 && y[0] == ';' then |x| else |x| + Semi(y))
    decreases |x|
  {
    if |x| > 0 {
      assert (x + y)[0] == x[0] && (x + y)[1..] == x[1..] + y;
      assert x[0] in x;
      assert forall c :: c in x[1..] ==> c in x;
      SemiAt(x[1..], y);
    } else {
      assert x + y == y;
    }
  }

  lemma {:induction false} PiecesOfTail(a: string, rest: seq<string>)
    requires ';' !in a && forall b :: b in rest ==> ';' !in b
    ensures Pieces(a + Tail(rest)) == [a] + rest
    decreases |rest|
  {
    if |rest| == 0 {
      SemiAt(a, "");
      assert a + Tail(rest) == a;
    } else {
      var b, more := rest[0], rest[1..];
      assert rest == [b] + more;
      assert forall c :: c in more ==> c in rest;
      PiecesOfTail(b, more);
      PiecesStep(a, b, more);
    }
  }

  /** One step of `PiecesOfTail`: the attribute before the first `;`, then the rest's. */
  lemma PiecesStep(a: string, b: string, more: seq<string>)
    requires ';' !in a && Pieces(b + Tail(more)) == [b] + more
    ensures Pieces(a + Tail([b] + more)) == [a] + ([b] + more)
  {
    var u := b + Tail(more);
    TailCons(b, more);
    PiecesAfter(a, u);
  }

  /** The pieces of `a;u` for an `a` without `;`. */
  lemma PiecesAfter(a: string, u: string)
    requires ';' !in a
    ensures Pieces(a + (";" + u)) == [a] + Pieces(u)
  {
    var s := a + (";" + u);
    SemiAt(a, ";" + u);
    AroundSemi(a, u);
    assert Pieces(s) == [s[..|a|]] + Pieces(s[|a| + 1..]);
  }

  lemma AroundSemi(a: string, u: string)
    ensures var s := a + (";" + u);
      |a| < |s| && s[|a|] == ';' && s[..|a|] == a && s[|a| + 1..] == u
  {
    var s := a + (";" + u);
    assert s[|a| + 1..] == u;
    assert s[..|a|] == a;
  }

  /** Cutting the text of a line gives the line back. */
  lemma CutText(l: Line)
    requires Unbroken(l)
    ensures Cut(Render(l)) == l
  {
    var s := Render(l);
    TailStart(l.attrs);
    SemiAt(l.pair, Tail(l.attrs));
    if |l.attrs| == 0 {
      assert s == l.pair;
    } else {
      TailCons(l.attrs[0], l.attrs[1..]);
      assert s[..|l.pair|] == l.pair;
      assert s[|l.pair| + 1..] == l.attrs[0] + Tail(l.attrs[1..]);
      PiecesOfTail(l.attrs[0], l.attrs[1..]);
      assert [l.attrs[0]] + l.attrs[1..] == l.attrs;
    }
  }

  // ------------------------------------------- patterns read per attribute

  /** Where a match at the `;` before an attribute ends, counted in the attribute. */
  type Reach = string -> Option<nat>

  function Reached(r: Option<nat>): Option<Hit> {
    match r
    case None => None
    case Some(e) => Some(Hit(1 + e, []))
  }

  /** Followed by further attributes, or by nothing. */
  predicate Follows(u: string) {
    u == "" || u[0] == ';'
  }

  /**
   * `re` opens with `;` and matches at the `;` before an attribute exactly
   * as `reach` says, without groups and without reading past the attribute.
   */
  ghost predicate Reads(re: Regex, reach: Reach) {
    && WellFormed(re) && Lead(re) == ';'
    && (forall a :: ';' !in a && reach(a).Some? ==> reach(a).value <= |a|)
    && forall a, u :: ';' !in a && Follows(u) ==> Match(re.fold, re.pieces, ";" + a + u, 0) == Reached(reach(a))
  }

  /** A replacement that ignores the match number. */
  ghost predicate Uncounted(f: Replacer) {
    forall i: nat, j: nat, m, g :: f(i, m, g) == f(j, m, g)
  }

  /** What replacing makes of the attributes: the matched front of each replaced by `f`, the rest kept. */
  function Rewritten(reach: Reach, f: Replacer, attrs: seq<string>): string
    decreases |attrs|
  {
    if |attrs| == 0 then ""
    else
      var a := attrs[0];
      (match reach(a)
       case None => ";" + a
       case Some(e) => if e <= |a| then f(0, ";" + a[..e], []) + a[e..] else ";" + a)
      + Rewritten(reach, f, attrs[1..])
  }

  /** Only a `;` opens a match. */
  lemma SemicolonLead(re: Regex, x: string, u: string)
    requires WellFormed(re) && Lead(re) == ';' && ';' !in x
    ensures forall j :: 0 <= j < |x| ==> Match(re.fold, re.pieces, x + u, j).None?
  {
    forall j | 0 <= j < |x| ensures !Same(re.fold, Lead(re), x[j]) {
      assert x[j] in x;
    }
    GapNoMatch(re, x, u);
  }

  lemma ReadsAt(re: Regex, reach: Reach, a: string, u: string)
    requires Reads(re, reach) && ';' !in a && Follows(u)
    ensures Match(re.fold, re.pieces, ";" + a + u, 0) == Reached(reach(a))
    ensures reach(a).Some? ==> reach(a).value <= |a|
  {
  }

  /** No match starts inside an attribute. */
  lemma InsideAttr(re: Regex, a: string, u: string)
    requires WellFormed(re) && Lead(re) == ';' && ';' !in a
    ensures forall j :: 1 <= j <= |a| ==> Match(re.fold, re.pieces, ";" + a + u, j).None?
  {
    var s := ";" + a + u;
    forall j | 1 <= j <= |a| ensures Match(re.fold, re.pieces, s, j).None? {
      assert s[j] == a[j - 1] && a[j - 1] in a;
      NoMatchAtRune(re, s, j);
    }
  }

  /** An attribute not matched at its `;` is copied through. */
  lemma AttrUnmatched(re: Regex, f: Replacer, a: string, u: string, k: nat)
    requires WellFormed(re) && Lead(re) == ';' && ';' !in a
    requires Match(re.fold, re.pieces, ";" + a + u, 0).None?
    ensures ReplaceFrom(re, ";" + a + u, 0, k, f) == ";" + a + ReplaceFrom(re, u, 0, k, f)
  {
    InsideAttr(re, a, u);
    ReplaceFromRegion(re, ";" + a, u, k, f);
  }

  /** An attribute matched at its `;` up to `e`: the match is replaced, the rest of the attribute copied. */
  lemma AttrMatched(re: Regex, f: Replacer, a: string, u: string, k: nat, e: nat)
    requires WellFormed(re) && Lead(re) == ';' && ';' !in a && e <= |a|
    requires Match(re.fold, re.pieces, ";" + a + u, 0) == Some(Hit(1 + e, []))
    ensures ReplaceFrom(re, ";" + a + u, 0, k, f) == f(k, ";" + a[..e], []) + a[e..] + ReplaceFrom(re, u, 0, k + 1, f)
  {
    var t, w := ";" + a[..e], a[e..];
    assert ";" + a + u == t + (w + u);
    assert Groups(";" + a + u, []) == [];
    ReplaceFromHead(re, t, w + u, k, f, []);
    assert ';' !in w by {
      forall i | 0 <= i < |w| ensures w[i] != ';' {
        assert w[i] == a[e + i] && a[e + i] in a;
      }
    }
    SemicolonLead(re, w, u);
    ReplaceFromRegion(re, w, u, k + 1, f);
  }

  /** One attribute: its matched front is replaced, then replacing goes on after it. */
  lemma ReplaceAttr(re: Regex, reach: Reach, f: Replacer, a: string, u: string, k: nat)
    requires Reads(re, reach) && Uncounted(f) && ';' !in a && Follows(u)
    ensures reach(a).None? ==> ReplaceFrom(re, ";" + a + u, 0, k, f) == ";" + a + ReplaceFrom(re, u, 0, k, f)
    ensures reach(a).Some? ==> reach(a).value <= |a|
    ensures reach(a).Some? ==>
      ReplaceFrom(re, ";" + a + u, 0, k, f) == f(0, ";" + a[..reach(a).value], []) + a[reach(a).value..] + ReplaceFrom(re, u, 0, k + 1, f)
  {
    ReadsAt(re, reach, a, u);
    match reach(a)
    case None =>
      AttrUnmatched(re, f, a, u, k);
    case Some(e) =>
      AttrMatched(re, f, a, u, k, e);
      assert f(k, ";" + a[..e], []) == f(0, ";" + a[..e], []);
  }

  lemma {:induction false} ReplaceAttrs(re: Regex, reach: Reach, f: Replacer, attrs: seq<string>, k: nat)
    requires Reads(re, reach) && Uncounted(f) && forall a :: a in attrs ==> ';' !in a
    ensures ReplaceFrom(re, Tail(attrs), 0, k, f) == Rewritten(reach, f, attrs)
    decreases |attrs|
  {
    if |attrs| == 0 {
      assert Tail(attrs) == "";
    } else {
      var a, rest := attrs[0], attrs[1..];
      assert a in attrs;
      assert forall b :: b in rest ==> b in attrs;
      TailStart(rest);
      ReplaceAttr(re, reach, f, a, Tail(rest), k);
      ReplaceAttrs(re, reach, f, rest, k);
      ReplaceAttrs(re, reach, f, rest, k + 1);
    }
  }

  /** Replacing the matches of such a pattern in a line is done attribute by attribute. */
  lemma ReplaceLine(re: Regex, reach: Reach, f: Replacer, l: Line)
    requires Reads(re, reach) && Uncounted(f) && Unbroken(l)
    ensures ReplaceFrom(re, Render(l), 0, 0, f) == l.pair + Rewritten(reach, f, l.attrs)
  {
    SemicolonLead(re, l.pair, Tail(l.attrs));
    ReplaceFromRegion(re, l.pair, Tail(l.attrs), 0, f);
    ReplaceAttrs(re, reach, f, l.attrs, 0);
  }

  // ------------------------------------------------------------- finding

  /** Some attribute is matched at its `;`. */
  predicate Reaches(reach: Reach, attrs: seq<string>) {
    exists i :: 0 <= i < |attrs| && reach(attrs[i]).Some?
  }

  /** Past an attribute not matched at its `;`, a match is found exactly when one is found after it. */
  lemma FindPastAttr(re: Regex, a: string, u: string)
    requires WellFormed(re) && Lead(re) == ';' && ';' !in a
    requires Match(re.fold, re.pieces, ";" + a + u, 0).None?
    ensures MatchString(re, ";" + a + u) <==> MatchString(re, u)
  {
    InsideAttr(re, a, u);
    FindFromRegion(re, ";" + a, u);
    FindFromShift(re, ";" + a, u, 0);
  }

  lemma {:induction false} FindAttrs(re: Regex, reach: Reach, attrs: seq<string>)
    requires Reads(re, reach) && forall a :: a in attrs ==> ';' !in a
    ensures MatchString(re, Tail(attrs)) <==> Reaches(reach, attrs)
    decreases |attrs|
  {
    if |attrs| == 0 {
      assert Tail(attrs) == "";
    } else {
      var a, rest := attrs[0], attrs[1..];
      FreeParts(attrs);
      TailStart(rest);
      FindAttr(re, reach, a, Tail(rest));
      ReachesCons(reach, attrs);
      if reach(a).None? {
        FindAttrs(re, reach, rest);
      }
    }
  }

  /** The first attribute and the others of a list without `;`s have none. */
  lemma FreeParts(attrs: seq<string>)
    requires |attrs| > 0 && forall a :: a in attrs ==> ';' !in a
    ensures ';' !in attrs[0] && forall b :: b in attrs[1..] ==> ';' !in b
  {
    assert attrs[0] in attrs;
    assert forall b :: b in attrs[1..] ==> b in attrs;
  }

  /**
   * A pattern that reads attributes is found in `;a` and what follows when
   * it reaches `a`, and otherwise exactly when it is found in what follows.
   */
  lemma FindAttr(re: Regex, reach: Reach, a: string, u: string)
    requires Reads(re, reach) && ';' !in a && Follows(u)
    ensures reach(a).Some? ==> MatchString(re, ";" + a + u)
    ensures reach(a).None? ==> (MatchString(re, ";" + a + u) <==> MatchString(re, u))
  {
    ReadsAt(re, reach, a, u);
    if reach(a).Some? {
      assert FindFrom(re, ";" + a + u, 0).Some?;
    } else {
      FindPastAttr(re, a, u);
    }
  }

  /** Some attribute of a list is reached exactly when its first one is or one of the others is. */
  lemma ReachesCons(reach: Reach, attrs: seq<string>)
    requires |attrs| > 0
    ensures Reaches(reach, attrs) <==> reach(attrs[0]).Some? || Reaches(reach, attrs[1..])
  {
    var rest := attrs[1..];
    if Reaches(reach, rest) {
      var i :| 0 <= i < |rest| && reach(rest[i]).Some?;
      assert attrs[i + 1] == rest[i];
    }
    if Reaches(reach, attrs) && reach(attrs[0]).None? {
      var i :| 0 <= i < |attrs| && reach(attrs[i]).Some?;
      assert i > 0 && rest[i - 1] == attrs[i];
    }
  }

  /** A line holds a match exactly when some attribute is matched at its `;`. */
  lemma FindLine(re: Regex, reach: Reach, l: Line)
    requires Reads(re, reach) && Unbroken(l)
    ensures MatchString(re, Render(l)) <==> Reaches(reach, l.attrs)
  {
    SemicolonLead(re, l.pair, Tail(l.attrs));
    FindFromRegion(re, l.pair, Tail(l.attrs));
    FindFromShift(re, l.pair, Tail(l.attrs), 0);
    FindAttrs(re, reach, l.attrs);
  }

  // --------------------------------------------------- whole attributes

  /** Every match covers its attribute whole. */
  predicate Whole(reach: Reach, attrs: seq<string>) {
    forall a :: a in attrs ==> reach(a).None? || reach(a) == Some(|a|)
  }

  /** The attributes not matched. */
  function Drop(reach: Reach, attrs: seq<string>): (r: seq<string>)
    decreases |attrs|
  {
    if |attrs| == 0 then []
    else (if reach(attrs[0]).Some? then [] else [attrs[0]]) + Drop(reach, attrs[1..])
  }

  /** Each matched attribute replaced by `t`. */
  function Swap(reach: Reach, t: string, attrs: seq<string>): (r: seq<string>)
    decreases |attrs|
  {
    if |attrs| == 0 then []
    else [if reach(attrs[0]).Some? then t else attrs[0]] + Swap(reach, t, attrs[1..])
  }

  /** Removing whole matched attributes leaves the others, in order. */
  lemma {:induction false} RemovedWhole(reach: Reach, f: Replacer, attrs: seq<string>)
    requires Whole(reach, attrs)
    requires forall m :: f(0, m, []) == ""
    ensures Rewritten(reach, f, attrs) == Tail(Drop(reach, attrs))
    decreases |attrs|
  {
    if |attrs| > 0 {
      var a := attrs[0];
      assert a in attrs;
      assert forall b :: b in attrs[1..] ==> b in attrs;
      RemovedWhole(reach, f, attrs[1..]);
      if reach(a).Some? {
        assert a[..|a|] == a && a[|a|..] == "";
        assert Drop(reach, attrs) == Drop(reach, attrs[1..]);
      } else {
        TailCons(a, Drop(reach, attrs[1..]));
      }
    }
  }

  lemma SwappedAttr(reach: Reach, f: Replacer, t: string, a: string)
    requires reach(a).None? || reach(a) == Some(|a|)
    requires forall m :: f(0, m, []) == ";" + t
    ensures (match reach(a)
             case None => ";" + a
             case Some(e) => if e <= |a| then f(0, ";" + a[..e], []) + a[e..] else ";" + a)
      == ";" + (if reach(a).Some? then t else a)
  {
    if reach(a).Some? {
      assert a[|a|..] == "";
    }
  }

  /** Replacing whole matched attributes by `; t` puts ` t` in their places. */
  lemma {:induction false} ReplacedWhole(reach: Reach, f: Replacer, t: string, attrs: seq<string>)
    requires Whole(reach, attrs)
    requires forall m :: f(0, m, []) == ";" + t
    ensures Rewritten(reach, f, attrs) == Tail(Swap(reach, t, attrs))
    decreases |attrs|
  {
    if |attrs| > 0 {
      var a := attrs[0];
      assert a in attrs;
      assert Whole(reach, attrs[1..]) by {
        forall b | b in attrs[1..] ensures b in attrs { }
      }
      ReplacedWhole(reach, f, t, attrs[1..]);
      SwappedAttr(reach, f, t, a);
      TailCons(if reach(a).Some? then t else a, Swap(reach, t, attrs[1..]));
    }
  }

  lemma {:induction false} DropSpec(reach: Reach, attrs: seq<string>)
    ensures forall b :: b in Drop(reach, attrs) <==> b in attrs && reach(b).None?
    decreases |attrs|
  {
    if |attrs| > 0 {
      DropSpec(reach, attrs[1..]);
      assert attrs == [attrs[0]] + attrs[1..];
    }
  }

  lemma {:induction false} SwapSpec(reach: Reach, t: string, attrs: seq<string>)
    ensures |Swap(reach, t, attrs)| == |attrs|
    ensures forall i :: 0 <= i < |attrs| ==>
      Swap(reach, t, attrs)[i] == if reach(attrs[i]).Some? then t else attrs[i]
    decreases |attrs|
  {
    if |attrs| > 0 {
      SwapSpec(reach, t, attrs[1..]);
    }
  }
}
