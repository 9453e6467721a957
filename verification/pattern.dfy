/**
 * The fragment of Go's `regexp` (RE2 syntax) that the proxy's patterns
 * use: literals, matched case-insensitively under `(?i)`; character
 * classes, one rune at a time or starred, greedy or lazy (`*?`); one
 * optional group (`(...)?`); and capture groups, written as marks around
 * the captured pieces.
 *
 * Matching follows Go's leftmost-first semantics: the match that starts
 * leftmost wins, and among the matches that start there the one a
 * backtracking matcher reaches first (a greedy star as long as possible, a
 * lazy one as short as possible, an optional group taken when it can be).
 */
module Pattern {
  import opened Optional
  import opened Text

  /** A character class. */
  datatype Class =
    | AnyRune         // `.` under `(?s)`
    | NotNewline      // `.`
    | Space           // `\s`, which in RE2 is [\t\n\f\r ]
    | OneOf(cs: string)
    | NoneOf(cs: string)

  predicate In(c: Class, x: char) {
    match c
    case AnyRune => true
    case NotNewline => x != '\n'
    case Space => x == '\t' || x == '\n' || x == '\U{000C}' || x == '\r' || x == ' '
    case OneOf(cs) => x in cs
    case NoneOf(cs) => x !in cs
  }

  /**
   * One element of a pattern. A `Mark` matches the empty string and records
   * where it stood, so that a group `(x)` is written `Mark, x, Mark`.
   */
  datatype Piece =
    | Lit(text: string)
    | One(cls: Class)
    | Star(cls: Class, lazy: bool)
    | Opt(inner: seq<Piece>)
    | Mark

  /**
   * A compiled pattern; `fold` is the `(?i)` flag. Every class the proxy
   * uses is closed under case folding, so the flag only concerns literals.
   */
  datatype Regex = Regex(fold: bool, pieces: seq<Piece>)

  /**
   * Simple case folding as `(?i)` applies it to an ASCII pattern rune: the
   * runes that match ASCII `x` are `x`, its other case, and for `k` and `s`
   * the Kelvin sign U+212A and the long s U+017F.
   */
  function FoldChar(c: char): char {
    if 'A' <= c <= 'Z' then (c as int + 32) as char
    else if c == '\U{212A}' then 'k'
    else if c == '\U{017F}' then 's'
    else c
  }

  predicate Same(fold: bool, a: char, b: char) {
    if fold then FoldChar(a) == FoldChar(b) else a == b
  }

  /** The literal `t` occurs at `pos`. */
  predicate LitAt(fold: bool, t: string, s: string, pos: nat) {
    pos + |t| <= |s| && forall i :: 0 <= i < |t| ==> Same(fold, t[i], s[pos + i])
  }

  /** Without `(?i)` a literal occurs exactly where it is a prefix. */
  lemma LitAtExact(t: string, s: string, pos: nat)
    requires pos <= |s|
    ensures LitAt(false, t, s, pos) <==> t <= s[pos..]
  {
    if t <= s[pos..] {
      forall i | 0 <= i < |t| ensures t[i] == s[pos + i] {
        assert s[pos..][i] == s[pos + i];
      }
    }
    if LitAt(false, t, s, pos) {
      assert s[pos..][..|t|] == t;
    }
  }

  /** The pattern size that the matcher's recursion decreases. */
  function Size(ps: seq<Piece>): nat
    decreases ps
  {
    if |ps| == 0 then 0
    else (match ps[0] case Opt(inner) => 1 + Size(inner) case _ => 1) + Size(ps[1..])
  }

  lemma {:induction false} SizeAppend(a: seq<Piece>, b: seq<Piece>)
    ensures Size(a + b) == Size(a) + Size(b)
    decreases |a|
  {
    if |a| == 0 {
      assert a + b == b;
    } else {
      assert (a + b)[0] == a[0];
      assert (a + b)[1..] == a[1..] + b;
      SizeAppend(a[1..], b);
    }
  }

  /** The number of runes from `pos` on that belong to `c`. */
  function Run(c: Class, s: string, pos: nat): (n: nat)
    requires pos <= |s|
    ensures pos + n <= |s|
    ensures forall i :: pos <= i < pos + n ==> In(c, s[i])
    ensures pos + n == |s| || !In(c, s[pos + n])
    decreases |s| - pos
  {
    if pos < |s| && In(c, s[pos]) then 1 + Run(c, s, pos + 1) else 0
  }

  /** A match: where it ends, and where its marks stood. */
  datatype Hit = Hit(end: nat, marks: seq<nat>)

  /** The preferred match of `ps` starting at `pos`, if there is one. */
  function Match(fold: bool, ps: seq<Piece>, s: string, pos: nat): (r: Option<Hit>)
    requires pos <= |s|
    ensures r.Some? ==> pos <= r.value.end <= |s|
    ensures r.Some? && |ps| > 0 && ps[0].Lit? ==> pos + |ps[0].text| <= r.value.end
    decreases Size(ps), 1, 0
  {
    if |ps| == 0 then Some(Hit(pos, []))
    else match ps[0]
      case Lit(t) =>
        if LitAt(fold, t, s, pos) then Match(fold, ps[1..], s, pos + |t|) else None
      case One(c) =>
        if pos < |s| && In(c, s[pos]) then Match(fold, ps[1..], s, pos + 1) else None
      case Mark =>
        (match Match(fold, ps[1..], s, pos)
         case None => None
         case Some(h) => Some(Hit(h.end, [pos] + h.marks)))
      case Star(c, lazy) =>
        var n := Run(c, s, pos);
        if lazy then Shortest(fold, ps[1..], s, pos, 0, n) else Longest(fold, ps[1..], s, pos, n)
      case Opt(inner) =>
        SizeAppend(inner, ps[1..]);
        var taken := Match(fold, inner + ps[1..], s, pos);
        if taken.Some? then taken else Match(fold, ps[1..], s, pos)
  }

  /** A greedy star that may take up to `k` runes from `pos`: the longest choice after which `rest` matches. */
  function Longest(fold: bool, rest: seq<Piece>, s: string, pos: nat, k: nat): (r: Option<Hit>)
    requires pos + k <= |s|
    ensures r.Some? ==> pos <= r.value.end <= |s|
    decreases Size(rest) + 1, 0, k
  {
    match Match(fold, rest, s, pos + k)
    case Some(h) => Some(h)
    case None => if k == 0 then None else Longest(fold, rest, s, pos, k - 1)
  }

  /** A lazy star that has taken `k` of at most `n` runes: the shortest choice after which `rest` matches. */
  function Shortest(fold: bool, rest: seq<Piece>, s: string, pos: nat, k: nat, n: nat): (r: Option<Hit>)
    requires k <= n && pos + n <= |s|
    ensures r.Some? ==> pos <= r.value.end <= |s|
    decreases Size(rest) + 1, 0, n - k
  {
    match Match(fold, rest, s, pos + k)
    case Some(h) => Some(h)
    case None => if k == n then None else Shortest(fold, rest, s, pos, k + 1, n)
  }

  /** A pattern the scanner can use: it opens with a non-empty literal, so every match is non-empty. */
  predicate WellFormed(re: Regex) {
    |re.pieces| > 0 && re.pieces[0].Lit? && |re.pieces[0].text| > 0
  }

  /** The text between `a` and `b`, or "" when they do not delimit a part of `s`. */
  function Slice(s: string, a: nat, b: nat): string {
    if a <= b <= |s| then s[a..b] else ""
  }

  /** The captured groups: the text between the first and second mark, the third and fourth, and so on. */
  function Groups(s: string, marks: seq<nat>): (g: seq<string>)
    ensures |g| == |marks| / 2
  {
    seq(|marks| / 2, i requires 0 <= i < |marks| / 2 => Slice(s, marks[2 * i], marks[2 * i + 1]))
  }

  /** The leftmost match starting at or after `from`: its start and the match itself. */
  datatype Found = Found(start: nat, hit: Hit)

  function FindFrom(re: Regex, s: string, from: nat): (r: Option<Found>)
    requires from <= |s|
    ensures r.Some? ==>
      from <= r.value.start < |s| && Match(re.fold, re.pieces, s, r.value.start) == Some(r.value.hit)
    ensures forall i :: from <= i < |s| && (r.None? || i < r.value.start) ==> Match(re.fold, re.pieces, s, i).None?
    decreases |s| - from
  {
    if from == |s| then None
    else match Match(re.fold, re.pieces, s, from)
      case Some(h) => Some(Found(from, h))
      case None => FindFrom(re, s, from + 1)
  }

  /**
   * The text a match is replaced by, given its number among the matches
   * (counting from 0), the matched text and the captured groups.
   */
  type Replacer = (nat, string, seq<string>) -> string

  /**
   * `ReplaceAllStringFunc` from `pos` on, where `k` matches have been
   * replaced already.
   */
  function ReplaceFrom(re: Regex, s: string, pos: nat, k: nat, f: Replacer): string
    requires WellFormed(re) && pos <= |s|
    decreases |s| - pos
  {
    if pos == |s| then ""
    else match Match(re.fold, re.pieces, s, pos)
      case Some(h) => f(k, s[pos..h.end], Groups(s, h.marks)) + ReplaceFrom(re, s, h.end, k + 1, f)
      case None => [s[pos]] + ReplaceFrom(re, s, pos + 1, k, f)
  }

  /** Each match is replaced by `t`, as it is. */
  function Inserter(t: string): Replacer {
    (k: nat, m: string, g: seq<string>) => t
  }

  /** `Regexp.ReplaceAllString` with a replacement that holds no `$`. */
  function ReplaceAllString(re: Regex, s: string, repl: string): string
    requires WellFormed(re)
  {
    ReplaceFrom(re, s, 0, 0, Inserter(repl))
  }

  /** `Regexp.MatchString`. */
  predicate MatchString(re: Regex, s: string) {
    FindFrom(re, s, 0).Some?
  }

  /** `Regexp.FindStringSubmatch`: the first match and its groups, or the empty list. */
  function FindStringSubmatch(re: Regex, s: string): (r: seq<string>)
    ensures |r| == 0 <==> !MatchString(re, s)
  {
    match FindFrom(re, s, 0)
    case None => []
    case Some(f) => [s[f.start..f.hit.end]] + Groups(s, f.hit.marks)
  }

  /** `Regexp.FindAllStringSubmatch(s, -1)` from `pos` on: each match and its groups, left to right. */
  function FindAllFrom(re: Regex, s: string, pos: nat): seq<seq<string>>
    requires WellFormed(re) && pos <= |s|
    decreases |s| - pos
  {
    if pos == |s| then []
    else match Match(re.fold, re.pieces, s, pos)
      case Some(h) => [[s[pos..h.end]] + Groups(s, h.marks)] + FindAllFrom(re, s, h.end)
      case None => FindAllFrom(re, s, pos + 1)
  }

  // ------------------------------------------------------------ properties

  /** With no match from `pos` on, replacing leaves the rest of the text as it is. */
  lemma {:induction false} NoMatchKeeps(re: Regex, s: string, pos: nat, k: nat, f: Replacer)
    requires WellFormed(re) && pos <= |s|
    requires FindFrom(re, s, pos).None?
    ensures ReplaceFrom(re, s, pos, k, f) == s[pos..]
    decreases |s| - pos
  {
    if pos < |s| {
      NoMatchKeeps(re, s, pos + 1, k, f);
      assert s[pos..] == [s[pos]] + s[pos + 1..];
    }
  }

  /** Where there is no match, `MatchString` is false and replacing is the identity. */
  lemma NoMatchIdentity(re: Regex, s: string, f: Replacer)
    requires WellFormed(re) && !MatchString(re, s)
    ensures ReplaceFrom(re, s, 0, 0, f) == s
  {
    NoMatchKeeps(re, s, 0, 0, f);
  }

  /** `ReplaceAllString` with no match leaves the text as it is. */
  lemma NoMatchReplaceAll(re: Regex, s: string, repl: string)
    requires WellFormed(re) && !MatchString(re, s)
    ensures ReplaceAllString(re, s, repl) == s
  {
    NoMatchIdentity(re, s, Inserter(repl));
  }

  /** Some occurrence of the literal `t` starts at or after `pos`. */
  ghost predicate OccursFrom(fold: bool, t: string, s: string, pos: nat) {
    exists i :: pos <= i && LitAt(fold, t, s, i)
  }

  /** Every match passes over each of the pattern's top-level literals. */
  lemma {:induction false} MatchNeedsLiteral(fold: bool, ps: seq<Piece>, s: string, pos: nat, j: nat)
    requires pos <= |s| && j < |ps| && ps[j].Lit?
    requires Match(fold, ps, s, pos).Some?
    ensures OccursFrom(fold, ps[j].text, s, pos)
    decreases Size(ps), 1, 0
  {
    match ps[0]
    case Lit(t) =>
      if j > 0 {
        MatchNeedsLiteral(fold, ps[1..], s, pos + |t|, j - 1);
      }
    case One(c) =>
      MatchNeedsLiteral(fold, ps[1..], s, pos + 1, j - 1);
    case Mark =>
      MatchNeedsLiteral(fold, ps[1..], s, pos, j - 1);
    case Star(c, lazy) =>
      var n := Run(c, s, pos);
      if lazy {
        ShortestNeedsLiteral(fold, ps[1..], s, pos, 0, n, j - 1);
      } else {
        LongestNeedsLiteral(fold, ps[1..], s, pos, n, j - 1);
      }
    case Opt(inner) =>
      SizeAppend(inner, ps[1..]);
      if Match(fold, inner + ps[1..], s, pos).Some? {
        assert (inner + ps[1..])[|inner| + j - 1] == ps[j];
        MatchNeedsLiteral(fold, inner + ps[1..], s, pos, |inner| + j - 1);
      } else {
        MatchNeedsLiteral(fold, ps[1..], s, pos, j - 1);
      }
  }

  lemma {:induction false} LongestNeedsLiteral(fold: bool, rest: seq<Piece>, s: string, pos: nat, k: nat, j: nat)
    requires pos + k <= |s| && j < |rest| && rest[j].Lit?
    requires Longest(fold, rest, s, pos, k).Some?
    ensures OccursFrom(fold, rest[j].text, s, pos)
    decreases Size(rest) + 1, 0, k
  {
    if Match(fold, rest, s, pos + k).Some? {
      MatchNeedsLiteral(fold, rest, s, pos + k, j);
      var i :| pos + k <= i && LitAt(fold, rest[j].text, s, i);
    } else {
      LongestNeedsLiteral(fold, rest, s, pos, k - 1, j);
    }
  }

  lemma {:induction false} ShortestNeedsLiteral(fold: bool, rest: seq<Piece>, s: string, pos: nat, k: nat, n: nat, j: nat)
    requires k <= n && pos + n <= |s| && j < |rest| && rest[j].Lit?
    requires Shortest(fold, rest, s, pos, k, n).Some?
    ensures OccursFrom(fold, rest[j].text, s, pos)
    decreases Size(rest) + 1, 0, n - k
  {
    if Match(fold, rest, s, pos + k).Some? {
      MatchNeedsLiteral(fold, rest, s, pos + k, j);
      var i :| pos + k <= i && LitAt(fold, rest[j].text, s, i);
    } else {
      ShortestNeedsLiteral(fold, rest, s, pos, k + 1, n, j);
    }
  }

  /**
   * A case-sensitive pattern with a top-level literal `t` matches nowhere
   * in a text that does not contain `t`.
   */
  lemma AbsentLiteralNoMatch(re: Regex, s: string, j: nat)
    requires !re.fold && j < |re.pieces| && re.pieces[j].Lit?
    requires !Contains(s, re.pieces[j].text)
    ensures !MatchString(re, s)
  {
    var t := re.pieces[j].text;
    if FindFrom(re, s, 0).Some? {
      var f := FindFrom(re, s, 0).value;
      MatchNeedsLiteral(false, re.pieces, s, f.start, j);
      var i :| f.start <= i && LitAt(false, t, s, i);
      LitAtExact(t, s, i);
      ContainsAt(s, t, i);
    }
  }

  // ------------------------------------------------- position independence

  /** A match found `d` runes further on: its end and its marks moved by `d`. */
  function Moved(h: Hit, d: nat): (r: Hit)
    ensures r.end == h.end + d && |r.marks| == |h.marks|
    ensures forall i :: 0 <= i < |h.marks| ==> r.marks[i] == h.marks[i] + d
  {
    Hit(h.end + d, seq(|h.marks|, i requires 0 <= i < |h.marks| => h.marks[i] + d))
  }

  function MovedBy(r: Option<Hit>, d: nat): Option<Hit> {
    match r
    case None => None
    case Some(h) => Some(Moved(h, d))
  }

  lemma LitAtShift(fold: bool, t: string, x: string, y: string, p: nat)
    ensures LitAt(fold, t, x + y, |x| + p) <==> LitAt(fold, t, y, p)
  {
    if p + |t| <= |y| {
      forall i | 0 <= i < |t| ensures Same(fold, t[i], (x + y)[|x| + p + i]) == Same(fold, t[i], y[p + i]) {
        assert (x + y)[|x| + p + i] == y[p + i];
      }
    }
  }

  lemma {:induction false} RunShift(c: Class, x: string, y: string, p: nat)
    requires p <= |y|
    ensures Run(c, x + y, |x| + p) == Run(c, y, p)
    decreases |y| - p
  {
    if p < |y| {
      assert (x + y)[|x| + p] == y[p];
      RunShift(c, x, y, p + 1);
    }
  }

  /** What a pattern matches after a prefix `x` is what it matches without it, moved by `|x|`. */
  lemma {:induction false} MatchShift(fold: bool, ps: seq<Piece>, x: string, y: string, p: nat)
    requires p <= |y|
    ensures Match(fold, ps, x + y, |x| + p) == MovedBy(Match(fold, ps, y, p), |x|)
    decreases Size(ps), 2, 0
  {
    if |ps| == 0 {
      assert Moved(Hit(p, []), |x|) == Hit(|x| + p, []);
    } else {
      match ps[0]
      case Lit(t) => LitShift(fold, ps, x, y, p);
      case One(c) => OneShift(fold, ps, x, y, p);
      case Mark => MarkShift(fold, ps, x, y, p);
      case Star(c, lazy) => StarShift(fold, ps, x, y, p);
      case Opt(inner) => OptShift(fold, ps, x, y, p);
    }
  }

  lemma {:induction false} LitShift(fold: bool, ps: seq<Piece>, x: string, y: string, p: nat)
    requires p <= |y| && |ps| > 0 && ps[0].Lit?
    ensures Match(fold, ps, x + y, |x| + p) == MovedBy(Match(fold, ps, y, p), |x|)
    decreases Size(ps), 1, 0
  {
    var t := ps[0].text;
    LitAtShift(fold, t, x, y, p);
    if LitAt(fold, t, y, p) {
      MatchShift(fold, ps[1..], x, y, p + |t|);
    }
  }

  lemma {:induction false} OneShift(fold: bool, ps: seq<Piece>, x: string, y: string, p: nat)
    requires p <= |y| && |ps| > 0 && ps[0].One?
    ensures Match(fold, ps, x + y, |x| + p) == MovedBy(Match(fold, ps, y, p), |x|)
    decreases Size(ps), 1, 0
  {
    if p < |y| {
      assert (x + y)[|x| + p] == y[p];
      if In(ps[0].cls, y[p]) {
        MatchShift(fold, ps[1..], x, y, p + 1);
      }
    }
  }

  lemma {:induction false} MarkShift(fold: bool, ps: seq<Piece>, x: string, y: string, p: nat)
    requires p <= |y| && |ps| > 0 && ps[0].Mark?
    ensures Match(fold, ps, x + y, |x| + p) == MovedBy(Match(fold, ps, y, p), |x|)
    decreases Size(ps), 1, 0
  {
    MatchShift(fold, ps[1..], x, y, p);
    if Match(fold, ps[1..], y, p).Some? {
      var h := Match(fold, ps[1..], y, p).value;
      assert Moved(Hit(h.end, [p] + h.marks), |x|) == Hit(h.end + |x|, [|x| + p] + Moved(h, |x|).marks);
    }
  }

  lemma {:induction false} StarShift(fold: bool, ps: seq<Piece>, x: string, y: string, p: nat)
    requires p <= |y| && |ps| > 0 && ps[0].Star?
    ensures Match(fold, ps, x + y, |x| + p) == MovedBy(Match(fold, ps, y, p), |x|)
    decreases Size(ps), 1, 0
  {
    var c := ps[0].cls;
    RunShift(c, x, y, p);
    var n := Run(c, y, p);
    if ps[0].lazy {
      ShortestShift(fold, ps[1..], x, y, p, 0, n);
    } else {
      LongestShift(fold, ps[1..], x, y, p, n);
    }
  }

  lemma {:induction false} OptShift(fold: bool, ps: seq<Piece>, x: string, y: string, p: nat)
    requires p <= |y| && |ps| > 0 && ps[0].Opt?
    ensures Match(fold, ps, x + y, |x| + p) == MovedBy(Match(fold, ps, y, p), |x|)
    decreases Size(ps), 1, 0
  {
    SizeAppend(ps[0].inner, ps[1..]);
    MatchShift(fold, ps[0].inner + ps[1..], x, y, p);
    MatchShift(fold, ps[1..], x, y, p);
  }

  lemma {:induction false} LongestShift(fold: bool, rest: seq<Piece>, x: string, y: string, p: nat, k: nat)
    requires p + k <= |y|
    ensures Longest(fold, rest, x + y, |x| + p, k) == MovedBy(Longest(fold, rest, y, p, k), |x|)
    decreases Size(rest) + 1, 0, k
  {
    MatchShift(fold, rest, x, y, p + k);
    if Match(fold, rest, y, p + k).None? && k > 0 {
      LongestShift(fold, rest, x, y, p, k - 1);
    }
  }

  lemma {:induction false} ShortestShift(fold: bool, rest: seq<Piece>, x: string, y: string, p: nat, k: nat, n: nat)
    requires k <= n && p + n <= |y|
    ensures Shortest(fold, rest, x + y, |x| + p, k, n) == MovedBy(Shortest(fold, rest, y, p, k, n), |x|)
    decreases Size(rest) + 1, 0, n - k
  {
    MatchShift(fold, rest, x, y, p + k);
    assert |x| + p + k == |x| + (p + k);
    match Match(fold, rest, y, p + k)
    case Some(h) =>
    case None =>
      if k < n {
        ShortestShift(fold, rest, x, y, p, k + 1, n);
      }
  }

  lemma GroupsShift(x: string, y: string, h: Hit)
    ensures Groups(x + y, Moved(h, |x|).marks) == Groups(y, h.marks)
  {
    var m := Moved(h, |x|).marks;
    forall i | 0 <= i < |h.marks| / 2
      ensures Slice(x + y, m[2 * i], m[2 * i + 1]) == Slice(y, h.marks[2 * i], h.marks[2 * i + 1])
    {
      var a, b := h.marks[2 * i], h.marks[2 * i + 1];
      if a <= b <= |y| {
        assert (x + y)[|x| + a..|x| + b] == y[a..b];
      }
    }
  }

  /** One step of replacing after a prefix `x`: a match in `y` is a match in `x + y`, moved by `|x|`. */
  lemma ReplaceStepShift(re: Regex, x: string, y: string, p: nat, k: nat, f: Replacer)
    requires WellFormed(re) && p < |y|
    ensures Match(re.fold, re.pieces, y, p).Some? ==>
      var h := Match(re.fold, re.pieces, y, p).value;
      ReplaceFrom(re, x + y, |x| + p, k, f)
        == f(k, y[p..h.end], Groups(y, h.marks)) + ReplaceFrom(re, x + y, |x| + h.end, k + 1, f)
    ensures Match(re.fold, re.pieces, y, p).None? ==>
      ReplaceFrom(re, x + y, |x| + p, k, f) == [y[p]] + ReplaceFrom(re, x + y, |x| + p + 1, k, f)
  {
    MatchShift(re.fold, re.pieces, x, y, p);
    match Match(re.fold, re.pieces, y, p)
    case Some(h) =>
      GroupsShift(x, y, h);
      assert (x + y)[|x| + p..|x| + h.end] == y[p..h.end];
    case None =>
      assert (x + y)[|x| + p] == y[p];
  }

  /** Replacing after a prefix `x` gives what replacing without it gives. */
  lemma {:induction false} ReplaceFromShift(re: Regex, x: string, y: string, p: nat, k: nat, f: Replacer)
    requires WellFormed(re) && p <= |y|
    ensures ReplaceFrom(re, x + y, |x| + p, k, f) == ReplaceFrom(re, y, p, k, f)
    decreases |y| - p
  {
    if p < |y| {
      ReplaceStepShift(re, x, y, p, k, f);
      match Match(re.fold, re.pieces, y, p)
      case Some(h) =>
        ReplaceFromShift(re, x, y, h.end, k + 1, f);
      case None =>
        ReplaceFromShift(re, x, y, p + 1, k, f);
    }
  }

  /** The same for `FindAllFrom`. */
  lemma {:induction false} FindAllShift(re: Regex, x: string, y: string, p: nat)
    requires WellFormed(re) && p <= |y|
    ensures FindAllFrom(re, x + y, |x| + p) == FindAllFrom(re, y, p)
    decreases |y| - p
  {
    if p < |y| {
      MatchShift(re.fold, re.pieces, x, y, p);
      match Match(re.fold, re.pieces, y, p)
      case Some(h) =>
        GroupsShift(x, y, h);
        assert (x + y)[|x| + p..|x| + h.end] == y[p..h.end];
        FindAllShift(re, x, y, h.end);
      case None =>
        FindAllShift(re, x, y, p + 1);
    }
  }

  // ---------------------------------------------------- skipping and hits

  /** The first rune of a well-formed pattern's opening literal. */
  function Lead(re: Regex): char
    requires WellFormed(re)
  {
    re.pieces[0].text[0]
  }

  /** No match can start at a rune that differs from the opening literal's first rune. */
  lemma NoMatchAtRune(re: Regex, s: string, pos: nat)
    requires WellFormed(re) && pos < |s| && !Same(re.fold, Lead(re), s[pos])
    ensures Match(re.fold, re.pieces, s, pos).None?
  {
  }

  /** A stretch of positions where no match starts is copied through unchanged. */
  lemma {:induction false} ReplaceFromSkip(re: Regex, s: string, pos: nat, i: nat, k: nat, f: Replacer)
    requires WellFormed(re) && pos <= i <= |s|
    requires forall j :: pos <= j < i ==> Match(re.fold, re.pieces, s, j).None?
    ensures ReplaceFrom(re, s, pos, k, f) == s[pos..i] + ReplaceFrom(re, s, i, k, f)
    decreases i - pos
  {
    if pos < i {
      ReplaceFromSkip(re, s, pos + 1, i, k, f);
      assert s[pos..i] == [s[pos]] + s[pos + 1..i];
    }
  }

  /** The same stretch contributes nothing to `FindAllFrom`. */
  lemma {:induction false} FindAllSkip(re: Regex, s: string, pos: nat, i: nat)
    requires WellFormed(re) && pos <= i <= |s|
    requires forall j :: pos <= j < i ==> Match(re.fold, re.pieces, s, j).None?
    ensures FindAllFrom(re, s, pos) == FindAllFrom(re, s, i)
    decreases i - pos
  {
    if pos < i {
      FindAllSkip(re, s, pos + 1, i);
    }
  }

  /** Nor to `FindFrom`. */
  lemma {:induction false} FindFromSkip(re: Regex, s: string, pos: nat, i: nat)
    requires pos <= i <= |s|
    requires forall j :: pos <= j < i ==> Match(re.fold, re.pieces, s, j).None?
    ensures FindFrom(re, s, pos) == FindFrom(re, s, i)
    decreases i - pos
  {
    if pos < i {
      FindFromSkip(re, s, pos + 1, i);
    }
  }

  /** A match is found after a prefix `x` exactly when one is found without it. */
  lemma {:induction false} FindFromShift(re: Regex, x: string, y: string, p: nat)
    requires p <= |y|
    ensures FindFrom(re, x + y, |x| + p).Some? <==> FindFrom(re, y, p).Some?
    decreases |y| - p
  {
    if p < |y| {
      MatchShift(re.fold, re.pieces, x, y, p);
      FindFromShift(re, x, y, p + 1);
    }
  }

  /** A front part `g` where no match of the whole text starts is copied through. */
  lemma ReplaceFromRegion(re: Regex, g: string, u: string, k: nat, f: Replacer)
    requires WellFormed(re)
    requires forall j :: 0 <= j < |g| ==> Match(re.fold, re.pieces, g + u, j).None?
    ensures ReplaceFrom(re, g + u, 0, k, f) == g + ReplaceFrom(re, u, 0, k, f)
  {
    ReplaceFromSkip(re, g + u, 0, |g|, k, f);
    assert (g + u)[0..|g|] == g;
    ReplaceFromShift(re, g, u, 0, k, f);
  }

  /** The same for `FindAllFrom`. */
  lemma FindAllRegion(re: Regex, g: string, u: string)
    requires WellFormed(re)
    requires forall j :: 0 <= j < |g| ==> Match(re.fold, re.pieces, g + u, j).None?
    ensures FindAllFrom(re, g + u, 0) == FindAllFrom(re, u, 0)
  {
    FindAllSkip(re, g + u, 0, |g|);
    FindAllShift(re, g, u, 0);
  }

  /** The same for `FindFrom`: the first match is the first match in `u`, moved past `g`. */
  lemma FindFromRegion(re: Regex, g: string, u: string)
    requires WellFormed(re)
    requires forall j :: 0 <= j < |g| ==> Match(re.fold, re.pieces, g + u, j).None?
    ensures FindFrom(re, g + u, 0) == FindFrom(re, g + u, |g|)
    ensures Match(re.fold, re.pieces, u, 0).Some? ==>
      FindFrom(re, g + u, 0) == Some(Found(|g|, Moved(Match(re.fold, re.pieces, u, 0).value, |g|)))
  {
    FindFromSkip(re, g + u, 0, |g|);
    MatchShift(re.fold, re.pieces, g, u, 0);
  }

  /** A gap none of whose runes can open a match holds no match. */
  lemma GapNoMatch(re: Regex, g: string, u: string)
    requires WellFormed(re)
    requires forall j :: 0 <= j < |g| ==> !Same(re.fold, Lead(re), g[j])
    ensures forall j :: 0 <= j < |g| ==> Match(re.fold, re.pieces, g + u, j).None?
  {
    forall j | 0 <= j < |g| ensures Match(re.fold, re.pieces, g + u, j).None? {
      assert (g + u)[j] == g[j];
      NoMatchAtRune(re, g + u, j);
    }
  }

  /**
   * A text that the pattern matches from its start to its end, followed by
   * `u`: the match is replaced and replacing carries on in `u` with the
   * next match number.
   */
  lemma ReplaceFromHead(re: Regex, t: string, u: string, k: nat, f: Replacer, marks: seq<nat>)
    requires WellFormed(re) && |t| > 0
    requires Match(re.fold, re.pieces, t + u, 0) == Some(Hit(|t|, marks))
    ensures ReplaceFrom(re, t + u, 0, k, f) == f(k, t, Groups(t + u, marks)) + ReplaceFrom(re, u, 0, k + 1, f)
  {
    assert (t + u)[0..|t|] == t;
    ReplaceFromShift(re, t, u, 0, k + 1, f);
  }

  /** The same for `FindAllFrom`. */
  lemma FindAllHead(re: Regex, t: string, u: string, marks: seq<nat>)
    requires WellFormed(re) && |t| > 0
    requires Match(re.fold, re.pieces, t + u, 0) == Some(Hit(|t|, marks))
    ensures FindAllFrom(re, t + u, 0) == [[t] + Groups(t + u, marks)] + FindAllFrom(re, u, 0)
  {
    assert (t + u)[0..|t|] == t;
    FindAllShift(re, t, u, 0);
  }

  /** A replacement that ignores the match number gives the same text whatever the count starts at. */
  lemma {:induction false} ReplaceFromUncounted(re: Regex, s: string, pos: nat, k: nat, l: nat, f: Replacer)
    requires WellFormed(re) && pos <= |s|
    requires forall i: nat, j: nat, m, g :: f(i, m, g) == f(j, m, g)
    ensures ReplaceFrom(re, s, pos, k, f) == ReplaceFrom(re, s, pos, l, f)
    decreases |s| - pos
  {
    if pos < |s| {
      match Match(re.fold, re.pieces, s, pos)
      case Some(h) => ReplaceFromUncounted(re, s, h.end, k + 1, l + 1, f);
      case None => ReplaceFromUncounted(re, s, pos + 1, k, l, f);
    }
  }
  /** Two replacements that agree on every match give the same text. */
  lemma {:induction false} ReplaceFromAgree(re: Regex, s: string, pos: nat, k: nat, f: Replacer, f': Replacer)
    requires WellFormed(re) && pos <= |s|
    requires forall i: nat, m, g :: f(i, m, g) == f'(i, m, g)
    ensures ReplaceFrom(re, s, pos, k, f) == ReplaceFrom(re, s, pos, k, f')
    decreases |s| - pos
  {
    if pos < |s| {
      match Match(re.fold, re.pieces, s, pos)
      case Some(h) => ReplaceFromAgree(re, s, h.end, k + 1, f, f');
      case None => ReplaceFromAgree(re, s, pos + 1, k, f, f');
    }
  }

  /**
   * The first match, at `i`, is replaced and the text after it is treated
   * as a text of its own, by a replacement that ignores the match number.
   */
  lemma ReplaceFirstHit(re: Regex, s: string, i: nat, h: Hit, f: Replacer)
    requires WellFormed(re) && i < |s|
    requires forall j :: 0 <= j < i ==> Match(re.fold, re.pieces, s, j).None?
    requires Match(re.fold, re.pieces, s, i) == Some(h)
    requires forall n: nat, l: nat, m, g :: f(n, m, g) == f(l, m, g)
    ensures ReplaceFrom(re, s, 0, 0, f) == s[..i] + f(0, s[i..h.end], Groups(s, h.marks)) + ReplaceFrom(re, s[h.end..], 0, 0, f)
  {
    ReplaceFromSkip(re, s, 0, i, 0, f);
    assert s[0..i] == s[..i];
    assert s == s[..h.end] + s[h.end..];
    ReplaceFromShift(re, s[..h.end], s[h.end..], 0, 1, f);
    ReplaceFromUncounted(re, s[h.end..], 0, 1, 0, f);
  }


  // ------------------------------------------------- one piece at a time

  lemma LitStep(fold: bool, t: string, ps: seq<Piece>, s: string, p: nat)
    requires p <= |s|
    ensures Match(fold, [Lit(t)] + ps, s, p) == if LitAt(fold, t, s, p) then Match(fold, ps, s, p + |t|) else None
  {
    assert ([Lit(t)] + ps)[0] == Lit(t) && ([Lit(t)] + ps)[1..] == ps;
  }

  lemma MarkStep(fold: bool, ps: seq<Piece>, s: string, p: nat)
    requires p <= |s|
    ensures Match(fold, [Mark] + ps, s, p) ==
      if Match(fold, ps, s, p).Some? then Some(Hit(Match(fold, ps, s, p).value.end, [p] + Match(fold, ps, s, p).value.marks))
      else None
  {
    assert ([Mark] + ps)[0] == Mark && ([Mark] + ps)[1..] == ps;
  }

  lemma StarStep(fold: bool, c: Class, lazy: bool, ps: seq<Piece>, s: string, p: nat)
    requires p <= |s|
    ensures Match(fold, [Star(c, lazy)] + ps, s, p) ==
      if lazy then Shortest(fold, ps, s, p, 0, Run(c, s, p)) else Longest(fold, ps, s, p, Run(c, s, p))
  {
    assert ([Star(c, lazy)] + ps)[0] == Star(c, lazy) && ([Star(c, lazy)] + ps)[1..] == ps;
  }

  lemma OptStep(fold: bool, inner: seq<Piece>, ps: seq<Piece>, s: string, p: nat)
    requires p <= |s|
    ensures Match(fold, [Opt(inner)] + ps, s, p) ==
      if Match(fold, inner + ps, s, p).Some? then Match(fold, inner + ps, s, p) else Match(fold, ps, s, p)
  {
    assert ([Opt(inner)] + ps)[0] == Opt(inner) && ([Opt(inner)] + ps)[1..] == ps;
  }

  /** A run of runes in `c` that ends at a rune outside `c` has exactly that length. */
  lemma RunExact(c: Class, s: string, pos: nat, a: nat)
    requires pos <= a < |s| && !In(c, s[a])
    requires forall j :: pos <= j < a ==> In(c, s[j])
    ensures Run(c, s, pos) == a - pos
  {
  }

  /** A run of runes in `c` at least up to `e`. */
  lemma RunAtLeast(c: Class, s: string, pos: nat, e: nat)
    requires pos <= e <= |s|
    requires forall j :: pos <= j < e ==> In(c, s[j])
    ensures pos + Run(c, s, pos) >= e
  {
  }

  /** A lazy star stops at the first length after which the rest matches. */
  lemma {:induction false} ShortestFirst(fold: bool, rest: seq<Piece>, s: string, pos: nat, k: nat, n: nat, m: nat)
    requires k <= m <= n && pos + n <= |s|
    requires forall j :: pos + k <= j < pos + m ==> Match(fold, rest, s, j).None?
    requires Match(fold, rest, s, pos + m).Some?
    ensures Shortest(fold, rest, s, pos, k, n) == Match(fold, rest, s, pos + m)
    decreases m - k
  {
    if k < m {
      ShortestFirst(fold, rest, s, pos, k + 1, n, m);
    }
  }
}
