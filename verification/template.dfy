/**
 * Go's `Regexp.Expand`, the template language of `ReplaceAllString`: in a
 * replacement, `$name` and `${name}` stand for a captured group and `$$`
 * for a dollar sign. The proxy's patterns capture nothing the replacements
 * name, so a reference expands to the match (`$0`) or to nothing.
 */
module Template {
  import opened Optional
  import opened Text
  import opened Pattern

  /** A rune that continues a `$name` reference: an ASCII letter or digit, or `_`. */
  predicate NameRune(c: char) {
    'a' <= c <= 'z' || 'A' <= c <= 'Z' || '0' <= c <= '9' || c == '_'
  }

  /** The length of the longest name at the start of `s`. */
  function NameLength(s: string): (n: nat)
    ensures n <= |s|
    ensures forall i :: 0 <= i < n ==> NameRune(s[i])
    ensures n < |s| ==> !NameRune(s[n])
    decreases |s|
  {
    if |s| == 0 || !NameRune(s[0]) then 0 else 1 + NameLength(s[1..])
  }

  /** A reference that a `$` opens: the name, and the template after the reference. */
  datatype Reference = Reference(name: string, rest: string)

  /**
   * The reference after a `$`: `${name}`, or the longest `name`. There is
   * none when the name is empty or the brace is not closed.
   */
  function Extract(s: string): (r: Option<Reference>)
    ensures r.Some? ==> |r.value.name| > 0 && forall i :: 0 <= i < |r.value.name| ==> NameRune(r.value.name[i])
    ensures r.Some? ==> s == "{" + r.value.name + "}" + r.value.rest || s == r.value.name + r.value.rest
    ensures r.None? ==> NameLength(s) == 0 || s[0] == '{'
  {
    if |s| > 0 && s[0] == '{' then
      var n := NameLength(s[1..]);
      if n == 0 || n + 1 >= |s| || s[n + 1] != '}' then None
      else
        assert s == "{" + s[1..n + 1] + "}" + s[n + 2..];
        Some(Reference(s[1..n + 1], s[n + 2..]))
    else
      var n := NameLength(s);
      if n == 0 then None
      else
        assert s == s[..n] + s[n..];
        Some(Reference(s[..n], s[n..]))
  }

  /**
   * `Regexp.Expand` of the replacement template `t` for a match `whole` of
   * a pattern without groups, as `ReplaceAllString` applies it: `$$` is a
   * dollar sign, `$0` and `${0}` are the match, any other reference is
   * empty (there is no such group), and a `$` that opens no reference is
   * kept.
   */
  function Expand(t: string, whole: string): (r: string)
    ensures '$' !in t ==> r == t
    decreases |t|
  {
    if |t| == 0 then ""
    else if t[0] != '$' then
      assert t == [t[0]] + t[1..];
      [t[0]] + Expand(t[1..], whole)
    else if |t| > 1 && t[1] == '$' then "$" + Expand(t[2..], whole)
    else match Extract(t[1..])
      case None => "$" + Expand(t[1..], whole)
      case Some(ref) => (if ref.name == "0" then whole else "") + Expand(ref.rest, whole)
  }

  /** A template that expands to `t`: every dollar sign doubled. */
  function Escape(t: string): (r: string)
    ensures |r| >= |t|
    decreases |t|
  {
    if |t| == 0 then "" else (if t[0] == '$' then "$$" else [t[0]]) + Escape(t[1..])
  }

  /** Expanding an escaped text gives the text back, whatever the match. */
  lemma {:induction false} ExpandEscape(t: string, whole: string)
    ensures Expand(Escape(t), whole) == t
    decreases |t|
  {
    if |t| > 0 {
      var e := Escape(t[1..]);
      ExpandEscape(t[1..], whole);
      if t[0] == '$' {
        assert Escape(t) == "$$" + e;
        assert ("$$" + e)[2..] == e;
      } else {
        assert Escape(t) == [t[0]] + e;
        assert ([t[0]] + e)[1..] == e;
      }
      assert t == [t[0]] + t[1..];
    }
  }

  /** A front part without `$` is copied by expansion as it is. */
  lemma {:induction false} ExpandPlainFront(p: string, q: string, whole: string)
    requires '$' !in p
    ensures Expand(p + q, whole) == p + Expand(q, whole)
    decreases |p|
  {
    if |p| > 0 {
      var c, p', t := p[0], p[1..], p + q;
      assert c in p && forall d :: d in p' ==> d in p;
      assert t[0] == c && t[1..] == p' + q;
      assert Expand(t, whole) == [c] + Expand(p' + q, whole);
      ExpandPlainFront(p', q, whole);
      Assoc([c], p', Expand(q, whole));
      assert [c] + p' == p;
    } else {
      assert p + q == q;
    }
  }

  /** Each match is replaced by the template `t` expanded for it. */
  function Expander(t: string): Replacer {
    (k: nat, m: string, g: seq<string>) => Expand(t, m)
  }

  lemma ExpanderUncounted(t: string)
    ensures forall n: nat, l: nat, m, g :: Expander(t)(n, m, g) == Expander(t)(l, m, g)
  {
  }
}
