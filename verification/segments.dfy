/**
 * Texts cut into segments: a gap in which no match starts, then a text
 * that a pattern matches exactly, then the next segment. Replacing and
 * finding over such a text is done segment by segment, which is how the
 * proofs about markup read the nested replacements of the proxy.
 */
module Segments {
  import opened Optional
  import opened Text
  import opened Pattern

  /** A gap, the matched text after it, and the match's marks counted from the text's start. */
  datatype Segment = Segment(gap: string, text: string, marks: seq<nat>)

  /** The segments written out, followed by `u`. */
  function JoinThen(segs: seq<Segment>, u: string): string
    decreases |segs|
  {
    if |segs| == 0 then u else segs[0].gap + (segs[0].text + JoinThen(segs[1..], u))
  }

  /**
   * The segments, followed by `u`, are read by `re` as the segments say:
   * no match starts in a gap and each text is matched whole.
   */
  ghost predicate Tiles(re: Regex, segs: seq<Segment>, u: string)
    decreases |segs|
  {
    |segs| == 0 ||
    (var g, t, rest := segs[0].gap, segs[0].text, JoinThen(segs[1..], u);
     && |t| > 0
     && (forall j :: 0 <= j < |g| ==> Match(re.fold, re.pieces, g + (t + rest), j).None?)
     && Match(re.fold, re.pieces, t + rest, 0) == Some(Hit(|t|, segs[0].marks))
     && (forall i :: 0 <= i < |segs[0].marks| ==> segs[0].marks[i] <= |t|)
     && Tiles(re, segs[1..], u))
  }

  /** One more segment in front of a tiling. */
  lemma TilesCons(re: Regex, s: Segment, segs: seq<Segment>, u: string)
    requires Tiles(re, segs, u) && |s.text| > 0
    requires forall j :: 0 <= j < |s.gap| ==> Match(re.fold, re.pieces, s.gap + (s.text + JoinThen(segs, u)), j).None?
    requires Match(re.fold, re.pieces, s.text + JoinThen(segs, u), 0) == Some(Hit(|s.text|, s.marks))
    requires forall i :: 0 <= i < |s.marks| ==> s.marks[i] <= |s.text|
    ensures Tiles(re, [s] + segs, u)
  {
    assert ([s] + segs)[0] == s && ([s] + segs)[1..] == segs;
  }

  /** What replacing makes of the segments: each gap kept, each text replaced, counted from `k`. */
  function Replaced(segs: seq<Segment>, k: nat, f: Replacer): string
    decreases |segs|
  {
    if |segs| == 0 then ""
    else segs[0].gap + (f(k, segs[0].text, Groups(segs[0].text, segs[0].marks)) + Replaced(segs[1..], k + 1, f))
  }

  /** What finding all matches reads from the segments. */
  function FoundIn(segs: seq<Segment>): seq<seq<string>>
    decreases |segs|
  {
    if |segs| == 0 then []
    else [[segs[0].text] + Groups(segs[0].text, segs[0].marks)] + FoundIn(segs[1..])
  }

  /** Marks within a text capture the same groups when more text follows. */
  lemma GroupsWithin(t: string, u: string, marks: seq<nat>)
    requires forall i :: 0 <= i < |marks| ==> marks[i] <= |t|
    ensures Groups(t + u, marks) == Groups(t, marks)
  {
    forall i | 0 <= i < |marks| / 2
      ensures Slice(t + u, marks[2 * i], marks[2 * i + 1]) == Slice(t, marks[2 * i], marks[2 * i + 1])
    {
      var a, b := marks[2 * i], marks[2 * i + 1];
      if a <= b {
        assert (t + u)[a..b] == t[a..b];
      }
    }
  }

  /** One segment: its gap is copied, its text replaced, and replacing goes on after it. */
  lemma ReplaceSegment(re: Regex, s: Segment, rest: string, k: nat, f: Replacer)
    requires WellFormed(re) && |s.text| > 0
    requires forall j :: 0 <= j < |s.gap| ==> Match(re.fold, re.pieces, s.gap + (s.text + rest), j).None?
    requires Match(re.fold, re.pieces, s.text + rest, 0) == Some(Hit(|s.text|, s.marks))
    requires forall i :: 0 <= i < |s.marks| ==> s.marks[i] <= |s.text|
    ensures ReplaceFrom(re, s.gap + (s.text + rest), 0, k, f)
      == s.gap + (f(k, s.text, Groups(s.text, s.marks)) + ReplaceFrom(re, rest, 0, k + 1, f))
  {
    ReplaceFromRegion(re, s.gap, s.text + rest, k, f);
    ReplaceFromHead(re, s.text, rest, k, f, s.marks);
    GroupsWithin(s.text, rest, s.marks);
  }

  /** Replacing over tiling segments replaces each text in turn, then goes on in `u`. */
  lemma {:induction false} ReplaceSegments(re: Regex, segs: seq<Segment>, u: string, k: nat, f: Replacer)
    requires WellFormed(re) && Tiles(re, segs, u)
    ensures ReplaceFrom(re, JoinThen(segs, u), 0, k, f) == Replaced(segs, k, f) + ReplaceFrom(re, u, 0, k + |segs|, f)
    decreases |segs|
  {
    if |segs| > 0 {
      var s, rest := segs[0], JoinThen(segs[1..], u);
      ReplaceSegment(re, s, rest, k, f);
      ReplaceSegments(re, segs[1..], u, k + 1, f);
      assert k + 1 + |segs[1..]| == k + |segs|;
      var r, t := f(k, s.text, Groups(s.text, s.marks)), ReplaceFrom(re, u, 0, k + |segs|, f);
      Assoc(r, Replaced(segs[1..], k + 1, f), t);
      Assoc(s.gap, r + Replaced(segs[1..], k + 1, f), t);
    }
  }

  /** ... and when no match starts in `u`, the replacing ends with `u` as it is. */
  lemma ReplaceSegmentsThen(re: Regex, segs: seq<Segment>, u: string, k: nat, f: Replacer)
    requires WellFormed(re) && Tiles(re, segs, u)
    requires forall j :: 0 <= j < |u| ==> Match(re.fold, re.pieces, u, j).None?
    ensures ReplaceFrom(re, JoinThen(segs, u), 0, k, f) == Replaced(segs, k, f) + u
  {
    ReplaceSegments(re, segs, u, k, f);
    assert u + "" == u;
    ReplaceFromRegion(re, u, "", k + |segs|, f);
  }

  /** A text matched whole and then nothing: the one match is replaced, the rest kept. */
  lemma ReplaceHeadThen(re: Regex, t: string, u: string, k: nat, f: Replacer, marks: seq<nat>)
    requires WellFormed(re) && |t| > 0
    requires Match(re.fold, re.pieces, t + u, 0) == Some(Hit(|t|, marks))
    requires forall i :: 0 <= i < |marks| ==> marks[i] <= |t|
    requires forall j :: 0 <= j < |u| ==> Match(re.fold, re.pieces, u, j).None?
    ensures ReplaceFrom(re, t + u, 0, k, f) == f(k, t, Groups(t, marks)) + u
  {
    ReplaceFromHead(re, t, u, k, f, marks);
    GroupsWithin(t, u, marks);
    assert u + "" == u;
    ReplaceFromRegion(re, u, "", k + 1, f);
  }

  /** Finding all matches over tiling segments reads each text in turn, then goes on in `u`. */
  lemma {:induction false} FindSegments(re: Regex, segs: seq<Segment>, u: string)
    requires WellFormed(re) && Tiles(re, segs, u)
    ensures FindAllFrom(re, JoinThen(segs, u), 0) == FoundIn(segs) + FindAllFrom(re, u, 0)
    decreases |segs|
  {
    if |segs| > 0 {
      var s, rest := segs[0], JoinThen(segs[1..], u);
      FindAllRegion(re, s.gap, s.text + rest);
      FindAllHead(re, s.text, rest, s.marks);
      GroupsWithin(s.text, rest, s.marks);
      FindSegments(re, segs[1..], u);
      Assoc([[s.text] + Groups(s.text, s.marks)], FoundIn(segs[1..]), FindAllFrom(re, u, 0));
    }
  }

  /** The first match after a front part where none starts is a text matched whole, with its groups. */
  lemma SubmatchAfter(re: Regex, a: string, t: string, w: string, marks: seq<nat>)
    requires WellFormed(re) && |t| > 0
    requires forall j :: 0 <= j < |a| ==> Match(re.fold, re.pieces, a + (t + w), j).None?
    requires Match(re.fold, re.pieces, t + w, 0) == Some(Hit(|t|, marks))
    requires forall i :: 0 <= i < |marks| ==> marks[i] <= |t|
    ensures FindStringSubmatch(re, a + (t + w)) == [t] + Groups(t, marks)
  {
    var s, h := a + (t + w), Hit(|t|, marks);
    FindFromRegion(re, a, t + w);
    assert s[|a|..|a| + |t|] == t;
    GroupsShift(a, t + w, h);
    GroupsWithin(t, w, marks);
  }

  /** A replacement that ignores the match number gives the same segments whatever the count. */
  lemma {:induction false} ReplacedUncounted(segs: seq<Segment>, k: nat, l: nat, f: Replacer)
    requires forall i: nat, j: nat, m, g :: f(i, m, g) == f(j, m, g)
    ensures Replaced(segs, k, f) == Replaced(segs, l, f)
    decreases |segs|
  {
    if |segs| > 0 {
      ReplacedUncounted(segs[1..], k + 1, l + 1, f);
    }
  }

  /** A text equal to a tiled one is replaced as the tiling says. */
  lemma ReplaceTiled(re: Regex, segs: seq<Segment>, u: string, s: string, r: string, k: nat, n: nat, f: Replacer)
    requires WellFormed(re) && Tiles(re, segs, u)
    requires s == JoinThen(segs, u) && r == Replaced(segs, k, f) && n == |segs|
    ensures ReplaceFrom(re, s, 0, k, f) == r + ReplaceFrom(re, u, 0, k + n, f)
  {
    ReplaceSegments(re, segs, u, k, f);
  }
}
