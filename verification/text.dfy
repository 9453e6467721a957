/**
 * The operations of Go's `strings` package that the proxy relies on, over
 * strings taken as sequences of Unicode scalar values (the runes of a UTF-8
 * text), together with the reference definitions that say what they mean.
 */
module Text {
  import opened Optional

  // ------------------------------------------------------------------ case

  /**
   * `unicode.ToLower` as far as it can matter here: every search the proxy
   * runs on a lowered string uses an ASCII pattern, and the only runes whose
   * lower case is ASCII are A-Z, U+0130 (dotted capital I) and U+212A (Kelvin
   * sign). Any other rune is non-ASCII before and after lowering, so leaving
   * it alone cannot change the outcome of such a search.
   */
  function LowerChar(c: char): char {
    if 'A' <= c <= 'Z' then (c as int + 32) as char
    else if c == '\U{0130}' then 'i'
    else if c == '\U{212A}' then 'k'
    else c
  }

  /** `strings.ToLower`, rune by rune. */
  function Lower(s: string): string {
    seq(|s|, i requires 0 <= i < |s| => LowerChar(s[i]))
  }

  /** A string with no rune that lowering changes is its own lower case. */
  lemma LowerFixed(s: string)
    requires forall i :: 0 <= i < |s| ==> LowerChar(s[i]) == s[i]
    ensures Lower(s) == s
  {
  }

  lemma LowerConcat(a: string, b: string)
    ensures Lower(a + b) == Lower(a) + Lower(b)
  {
  }

  // ---------------------------------------------------------------- search

  /** `strings.Contains`: `p` starts at some position of `s`. */
  predicate Contains(s: string, p: string) {
    exists i :: 0 <= i <= |s| && p <= s[i..]
  }

  /** `strings.HasSuffix`. (`strings.HasPrefix(s, p)` is Dafny's `p <= s`.) */
  predicate HasSuffix(s: string, suffix: string) {
    |suffix| <= |s| && s[|s| - |suffix|..] == suffix
  }

  /** The first position at or after `k` where `p` starts, if any. */
  function IndexFrom(s: string, p: string, k: nat): (r: Option<nat>)
    requires k <= |s|
    ensures r.Some? ==> k <= r.value <= |s| && p <= s[r.value..]
    ensures forall i :: k <= i <= |s| && (r.None? || i < r.value) ==> !(p <= s[i..])
    decreases |s| - k
  {
    if p <= s[k..] then Some(k)
    else if k == |s| then None
    else IndexFrom(s, p, k + 1)
  }

  /** A prefix agrees with the whole string at each of its positions. */
  lemma PrefixAt(x: string, y: string, j: nat)
    requires j < |x|
    ensures x <= y ==> j < |y| && y[j] == x[j]
  {
  }

  /** Dropping the same number of runes from both keeps the prefix relation. */
  lemma PrefixDrop(x: string, y: string, k: nat)
    requires k <= |x|
    ensures x <= y ==> x[k..] <= y[k..]
  {
    if x <= y {
      assert y[k..][..|x| - k] == x[k..];
    }
  }

  lemma ContainsAt(s: string, p: string, i: nat)
    requires i <= |s| && p <= s[i..]
    ensures Contains(s, p)
  {
  }

  /** A pattern occurring in a factor of `s` occurs in `s`. */
  lemma ContainsInFactor(u: string, x: string, v: string, p: string)
    ensures Contains(x, p) ==> Contains(u + x + v, p)
  {
    if Contains(x, p) {
      var i :| 0 <= i <= |x| && p <= x[i..];
      assert (u + x + v)[|u| + i..] == x[i..] + v;
      ContainsAt(u + x + v, p, |u| + i);
    }
  }

  /** A text containing `u + x + v` contains `x`. */
  lemma ContainsOfPart(s: string, u: string, x: string, v: string)
    ensures Contains(s, u + x + v) ==> Contains(s, x)
  {
    if Contains(s, u + x + v) {
      var i :| 0 <= i <= |s| && u + x + v <= s[i..];
      assert x <= s[i + |u|..] by {
        assert s[i..][|u|..] == s[i + |u|..];
        PrefixDrop(u + x + v, s[i..], |u|);
        assert (u + x + v)[|u|..] == x + v;
      }
      ContainsAt(s, x, i + |u|);
    }
  }

  /** A pattern holding a rune that `s` lacks does not occur in `s`. */
  lemma MissingRune(s: string, p: string, j: nat)
    requires j < |p| && p[j] !in s
    ensures !Contains(s, p)
  {
    forall i | 0 <= i <= |s| ensures !(p <= s[i..]) {
      PrefixAt(p, s[i..], j);
      if i + j < |s| {
        assert s[i..][j] in s;
      }
    }
  }

  // ------------------------------------------------------------ whitespace

  /** `unicode.IsSpace`, the test behind `strings.TrimSpace`. */
  predicate IsSpace(c: char) {
    c == '\t' || c == '\n' || c == '\U{000B}' || c == '\U{000C}' || c == '\r' || c == ' '
    || c == '\U{0085}' || c == '\U{00A0}' || c == '\U{1680}'
    || ('\U{2000}' <= c <= '\U{200A}')
    || c == '\U{2028}' || c == '\U{2029}' || c == '\U{202F}' || c == '\U{205F}' || c == '\U{3000}'
  }

  /** Drops leading white space. */
  function TrimLeft(s: string): (r: string)
    ensures |r| <= |s|
  {
    if |s| > 0 && IsSpace(s[0]) then TrimLeft(s[1..]) else s
  }

  /** Drops trailing white space. */
  function TrimRight(s: string): (r: string)
    ensures |r| <= |s|
  {
    if |s| > 0 && IsSpace(s[|s| - 1]) then TrimRight(s[..|s| - 1]) else s
  }

  /** `TrimLeft` removes exactly the longest all-space prefix. */
  lemma {:induction false} TrimLeftSpec(s: string)
    ensures var r := TrimLeft(s);
      && r == s[|s| - |r|..]
      && (|r| == 0 || !IsSpace(r[0]))
      && forall i :: 0 <= i < |s| - |r| ==> IsSpace(s[i])
    decreases |s|
  {
    if |s| > 0 && IsSpace(s[0]) {
      TrimLeftSpec(s[1..]);
      var r := TrimLeft(s);
      assert s[1..][|s| - 1 - |r|..] == s[|s| - |r|..];
      forall i | 1 <= i < |s| - |r| ensures IsSpace(s[i]) {
        assert s[i] == s[1..][i - 1];
      }
    }
  }

  /** `TrimRight` removes exactly the longest all-space suffix. */
  lemma {:induction false} TrimRightSpec(s: string)
    ensures var r := TrimRight(s);
      && r == s[..|r|]
      && (|r| == 0 || !IsSpace(r[|r| - 1]))
      && forall i :: |r| <= i < |s| ==> IsSpace(s[i])
    decreases |s|
  {
    if |s| > 0 && IsSpace(s[|s| - 1]) {
      TrimRightSpec(s[..|s| - 1]);
      var r := TrimRight(s);
      assert s[..|s| - 1][..|r|] == s[..|r|];
      forall i | |r| <= i < |s| - 1 ensures IsSpace(s[i]) {
        assert s[i] == s[..|s| - 1][i];
      }
    }
  }

  /** `strings.TrimSpace`. */
  function TrimSpace(s: string): string {
    TrimRight(TrimLeft(s))
  }

  /**
   * `TrimSpace` keeps the factor of `s` between its leading and trailing
   * white space: it starts and ends with a non-space rune, and only space
   * was cut on either side.
   */
  lemma TrimSpaceSpec(s: string)
    ensures var t, i := TrimSpace(s), |s| - |TrimLeft(s)|;
      && 0 <= i <= |s| - |t| && t == s[i..i + |t|]
        && (forall j :: 0 <= j < i ==> IsSpace(s[j]))
        && (forall j :: i + |t| <= j < |s| ==> IsSpace(s[j]))
        && (|t| == 0 || (!IsSpace(t[0]) && !IsSpace(t[|t| - 1])))
  {
    var l := TrimLeft(s);
    var t := TrimSpace(s);
    TrimLeftSpec(s);
    TrimRightSpec(l);
    var i := |s| - |l|;
    assert t == l[..|t|];
    assert t == s[i..i + |t|];
    forall j | i + |t| <= j < |s| ensures IsSpace(s[j]) {
      assert s[j] == l[j - i];
    }
    if |t| > 0 {
      assert t[0] == l[0];
    }
  }

  /** Trimming again changes nothing: the result neither starts nor ends with space. */
  lemma TrimSpaceIdempotent(s: string)
    ensures TrimSpace(TrimSpace(s)) == TrimSpace(s)
  {
    var t := TrimSpace(s);
    var l := TrimLeft(s);
    TrimLeftSpec(s);
    TrimRightSpec(l);
    if |t| > 0 {
      assert t[0] == l[0];
    }
    assert TrimLeft(t) == t;
    TrimRightSpec(t);
    if |t| > 0 {
      assert !IsSpace(t[|t| - 1]);
    }
  }

  // ----------------------------------------------------------- replacement

  /** What `strings.ReplaceAll` does with an empty pattern: `r` before every rune and at the end. */
  function Interleave(s: string, r: string): string {
    if |s| == 0 then r else r + [s[0]] + Interleave(s[1..], r)
  }

  /**
   * `strings.ReplaceAll`: scanning left to right, every occurrence of `p`
   * that does not overlap an earlier one is replaced by `r`.
   */
  function ReplaceAll(s: string, p: string, r: string): string
    decreases |s|
  {
    if |p| == 0 then Interleave(s, r)
    else if |s| == 0 then s
    else if p <= s then r + ReplaceAll(s[|p|..], p, r)
    else [s[0]] + ReplaceAll(s[1..], p, r)
  }

  /** `strings.Replace(s, p, r, 1)`: only the first occurrence is replaced. */
  function ReplaceFirst(s: string, p: string, r: string): string {
    match IndexFrom(s, p, 0)
    case None => s
    case Some(i) => s[..i] + r + s[i + |p|..]
  }

  // ------------------------------------------------------ split and join

  /**
   * `strings.Split`: the pieces of `s` between the occurrences of `p` that
   * `ReplaceAll` would replace.
   */
  function Split(s: string, p: string): (parts: seq<string>)
    requires |p| > 0
    ensures |parts| >= 1
    decreases |s|
  {
    if |s| == 0 then [s]
    else if p <= s then [""] + Split(s[|p|..], p)
    else
      var rest := Split(s[1..], p);
      [[s[0]] + rest[0]] + rest[1..]
  }

  /** `strings.Join`. */
  function Join(parts: seq<string>, sep: string): string {
    if |parts| == 0 then ""
    else if |parts| == 1 then parts[0]
    else parts[0] + sep + Join(parts[1..], sep)
  }

  lemma JoinCons(x: string, xs: seq<string>, sep: string)
    requires |xs| >= 1
    ensures Join([x] + xs, sep) == x + sep + Join(xs, sep)
  {
    assert ([x] + xs)[1..] == xs;
  }

  lemma JoinGlue(c: string, parts: seq<string>, sep: string)
    requires |parts| >= 1
    ensures Join([c + parts[0]] + parts[1..], sep) == c + Join(parts, sep)
  {
    if |parts| > 1 {
      JoinCons(c + parts[0], parts[1..], sep);
      JoinCons(parts[0], parts[1..], sep);
      assert [parts[0]] + parts[1..] == parts;
    }
  }

  /** `ReplaceAll` is `Join(Split(s, p), r)`, the identity Go documents. */
  lemma {:induction false} ReplaceAllIsJoinSplit(s: string, p: string, r: string)
    requires |p| > 0
    ensures ReplaceAll(s, p, r) == Join(Split(s, p), r)
    decreases |s|
  {
    if |s| == 0 {
    } else if p <= s {
      ReplaceAllIsJoinSplit(s[|p|..], p, r);
      JoinCons("", Split(s[|p|..], p), r);
    } else {
      ReplaceAllIsJoinSplit(s[1..], p, r);
      JoinGlue([s[0]], Split(s[1..], p), r);
    }
  }

  /** Replacing `p` by itself changes nothing. */
  lemma {:induction false} ReplaceAllSelf(s: string, p: string)
    ensures ReplaceAll(s, p, p) == s
    decreases |s|
  {
    if |p| == 0 {
      InterleaveEmpty(s);
    } else if |s| == 0 {
    } else if p <= s {
      ReplaceAllSelf(s[|p|..], p);
      assert s == p + s[|p|..];
    } else {
      ReplaceAllSelf(s[1..], p);
      assert s == [s[0]] + s[1..];
    }
  }

  lemma {:induction false} InterleaveEmpty(s: string)
    ensures Interleave(s, "") == s
    decreases |s|
  {
    if |s| > 0 {
      InterleaveEmpty(s[1..]);
      assert s == [s[0]] + s[1..];
    }
  }

  /** Joining the pieces with the pattern they were split on gives `s` back. */
  lemma SplitJoinRoundTrip(s: string, p: string)
    requires |p| > 0
    ensures Join(Split(s, p), p) == s
  {
    ReplaceAllIsJoinSplit(s, p, p);
    ReplaceAllSelf(s, p);
  }

  /** The first piece is where `s` starts. */
  lemma {:induction false} SplitHeadIsPrefix(s: string, p: string)
    requires |p| > 0
    ensures Split(s, p)[0] <= s
    decreases |s|
  {
    if |s| > 0 && !(p <= s) {
      SplitHeadIsPrefix(s[1..], p);
    }
  }

  /** No piece holds the pattern: the scan would have cut it there. */
  lemma {:induction false} SplitPiecesFree(s: string, p: string)
    requires |p| > 0
    ensures forall k :: 0 <= k < |Split(s, p)| ==> !Contains(Split(s, p)[k], p)
    decreases |s|
  {
    var parts := Split(s, p);
    if |s| == 0 {
      assert parts == [s];
      EmptyContainsNothing(p);
    } else if p <= s {
      SplitPiecesFree(s[|p|..], p);
      EmptyContainsNothing(p);
      assert parts == [""] + Split(s[|p|..], p);
    } else {
      var rest := Split(s[1..], p);
      SplitPiecesFree(s[1..], p);
      SplitHeadIsPrefix(s[1..], p);
      var head := [s[0]] + rest[0];
      assert head <= s;
      forall i | 0 <= i <= |head| ensures !(p <= head[i..]) {
        if i == 0 {
          if |p| <= |head| { assert head[..|p|] == s[..|p|]; }
        } else {
          assert head[i..] == rest[0][i - 1..];
        }
      }
      assert parts == [head] + rest[1..];
    }
  }

  lemma EmptyContainsNothing(p: string)
    requires |p| > 0
    ensures !Contains("", p)
  {
  }

  /** A pattern inside one of the parts is inside their join. */
  lemma {:induction false} JoinKeepsParts(parts: seq<string>, sep: string, k: nat, p: string)
    requires k < |parts|
    ensures Contains(parts[k], p) ==> Contains(Join(parts, sep), p)
    decreases |parts|
  {
    if |parts| > 1 {
      var rest := Join(parts[1..], sep);
      if k == 0 {
        ContainsInFactor("", parts[0], sep + rest, p);
        assert "" + parts[0] + (sep + rest) == Join(parts, sep);
      } else {
        JoinKeepsParts(parts[1..], sep, k - 1, p);
        ContainsInFactor(parts[0] + sep, rest, "", p);
        assert parts[0] + sep + rest + "" == Join(parts, sep);
      }
    }
  }

  /** Absent pattern, nothing replaced. */
  lemma {:induction false} ReplaceAllAbsent(s: string, p: string, r: string)
    requires !Contains(s, p)
    ensures ReplaceAll(s, p, r) == s
    decreases |s|
  {
    assert !(p <= s[0..]);
    if |s| > 0 {
      assert !Contains(s[1..], p) by {
        forall i | 0 <= i <= |s[1..]| ensures !(p <= s[1..][i..]) {
          assert s[1..][i..] == s[i + 1..];
        }
      }
      ReplaceAllAbsent(s[1..], p, r);
    }
  }

  // --------------------------------------- what ReplaceAll cannot re-create

  /** One of `x` and `y` is a prefix of the other. */
  predicate Comparable(x: string, y: string) {
    x <= y || y <= x
  }

  /**
   * No occurrence of `p` can run into or out of a copy of `r`: no tail of
   * `r` lines up with the start of `p`, and no tail of `p` lines up with the
   * start of `r`. Then gluing `p`-free pieces together with `r` between them
   * cannot produce `p`.
   */
  ghost predicate Overlapless(r: string, p: string) {
    && (forall j :: 0 <= j < |r| ==> !Comparable(r[j..], p))
    && (forall k :: 1 <= k < |p| ==> !Comparable(p[k..], r))
  }

  /** Two strings that differ at a position both have are not comparable. */
  lemma HeadDiffers(x: string, y: string, i: nat)
    requires i < |x| && i < |y| && x[i] != y[i]
    ensures !Comparable(x, y)
  {
  }

  /** A tail of `x` that opens with a rune other than `y`'s first is not comparable with `y`. */
  lemma RuneDiffers(x: string, y: string, j: nat)
    requires j < |x| && |y| > 0 && x[j] != y[0]
    ensures !Comparable(x[j..], y)
  {
  }

  /** No tail of `x` starting in `lo..hi` is comparable with `y` when `y`'s first rune is missing there. */
  lemma FirstRuneAbsent(x: string, y: string, lo: nat, hi: nat)
    requires lo <= hi <= |x| && |y| > 0 && y[0] !in x[lo..hi]
    ensures forall j :: lo <= j < hi ==> !Comparable(x[j..], y)
  {
    forall j | lo <= j < hi ensures !Comparable(x[j..], y) {
      assert x[j] == x[lo..hi][j - lo];
      HeadDiffers(x[j..], y, 0);
    }
  }

  /** Concatenation regrouped; stated once so that proofs need not rediscover it. */
  lemma Assoc<T>(a: seq<T>, b: seq<T>, c: seq<T>)
    ensures a + (b + c) == a + b + c
  {
  }

  lemma PrefixOfConcat(x: string, r: string, b: string)
    ensures x <= r + b ==> Comparable(x, r)
  {
    if x <= r + b {
      if |x| <= |r| {
        assert x == (r + b)[..|x|] == r[..|x|];
      } else {
        assert r == (r + b)[..|r|] == x[..|r|];
      }
    }
  }

  /** No occurrence of `p` in `a + r + b` when `a` and `b` are `p`-free. */
  lemma Straddle(a: string, r: string, b: string, p: string, i: nat)
    requires |p| > 0 && Overlapless(r, p) && !Contains(a, p) && !Contains(b, p)
    requires i <= |a + r + b|
    ensures !(p <= (a + r + b)[i..])
  {
    var t := a + r + b;
    if i + |p| <= |a| {
      assert t[i..i + |p|] == a[i..i + |p|];
      assert !(p <= a[i..]);
    } else if i < |a| {
      var k := |a| - i;
      assert t[i..][k..] == r + b;
      PrefixOfConcat(p[k..], r, b);
      assert !Comparable(p[k..], r);
      PrefixDrop(p, t[i..], k);
    } else if i < |a| + |r| {
      var j := i - |a|;
      assert t[i..] == r[j..] + b;
      PrefixOfConcat(p, r[j..], b);
      assert !Comparable(r[j..], p);
    } else {
      assert t[i..] == b[i - |a| - |r|..];
    }
  }

  lemma {:induction false} JoinFree(parts: seq<string>, r: string, p: string)
    requires |p| > 0 && Overlapless(r, p)
    requires forall k :: 0 <= k < |parts| ==> !Contains(parts[k], p)
    ensures !Contains(Join(parts, r), p)
    decreases |parts|
  {
    if |parts| == 0 {
      EmptyContainsNothing(p);
    } else if |parts| >= 2 {
      var a, rest := parts[0], Join(parts[1..], r);
      assert forall k :: 0 <= k < |parts[1..]| ==> parts[1..][k] == parts[k + 1];
      JoinFree(parts[1..], r, p);
      forall i | 0 <= i <= |a + r + rest| ensures !(p <= (a + r + rest)[i..]) {
        Straddle(a, r, rest, p, i);
      }
    }
  }

  /** With an overlap-free replacement, `ReplaceAll` leaves no `p` behind. */
  lemma ReplaceAllRemoves(s: string, p: string, r: string)
    requires |p| > 0 && Overlapless(r, p)
    ensures !Contains(ReplaceAll(s, p, r), p)
  {
    ReplaceAllIsJoinSplit(s, p, r);
    SplitPiecesFree(s, p);
    JoinFree(Split(s, p), r, p);
  }

  /** ... and replacing some other pattern does not bring an absent `p` back. */
  lemma ReplaceAllKeepsOut(s: string, q: string, r: string, p: string)
    requires |q| > 0 && |p| > 0 && Overlapless(r, p) && !Contains(s, p)
    ensures !Contains(ReplaceAll(s, q, r), p)
  {
    var parts := Split(s, q);
    ReplaceAllIsJoinSplit(s, q, r);
    SplitJoinRoundTrip(s, q);
    forall k | 0 <= k < |parts| ensures !Contains(parts[k], p) {
      JoinKeepsParts(parts, q, k, p);
    }
    JoinFree(parts, r, p);
  }

  // --------------------------------------------------------------- numbers

  function Digit(d: nat): char
    requires d < 10
  {
    "0123456789"[d]
  }

  /** `fmt.Sprintf("%d", n)` for a length or a count. */
  function Decimal(n: nat): (r: string)
    ensures |r| > 0 && forall i :: 0 <= i < |r| ==> '0' <= r[i] <= '9'
    ensures r[0] == '0' ==> n == 0
  {
    if n < 10 then [Digit(n)] else Decimal(n / 10) + [Digit(n % 10)]
  }

  /** The number a string of decimal digits denotes. */
  function DigitsValue(s: string): nat
    requires forall i :: 0 <= i < |s| ==> '0' <= s[i] <= '9'
  {
    if |s| == 0 then 0 else DigitsValue(s[..|s| - 1]) * 10 + (s[|s| - 1] as int - '0' as int)
  }

  /** Reading back what `Decimal` printed gives the number. */
  lemma {:induction false} DecimalRoundTrip(n: nat)
    ensures DigitsValue(Decimal(n)) == n
  {
    if n >= 10 {
      DecimalRoundTrip(n / 10);
      var d := Decimal(n);
      assert d[..|d| - 1] == Decimal(n / 10);
    }
  }
}
