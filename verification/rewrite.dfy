/**
 * `replaceTargetURLs`: the fixed sequence of textual substitutions that
 * points every absolute link of the university's pages at the proxy's
 * public URL instead of at the upstream hosts.
 *
 * The substitutions come in four groups, applied in this order: the
 * origins of the two upstream hosts and of `localhost`; JavaScript
 * assignments to `location`; the `url=` of a meta refresh tag, found with
 * a regular expression; and `action`, `src`, `href` and `top`/`parent`
 * location attributes. Every pattern after the first group contains the
 * first origin, which the first group has already removed, so for a
 * well-behaved public URL only the first group ever changes anything.
 */
module Rewrite {
  import opened Text
  import opened Pattern

  /**
   * The constants below are written as short concatenations. They stand
   * for the same strings as the flat literals, and keep the proofs about
   * particular positions in them cheap.
   */
  const UniversityDomain := "utaipei" + ".edu.tw"

  /** The public URL used when the proxy is given none: `http://127.0.0.1:8080`. */
  const DefaultPublic := "http://" + "127.0.0.1" + ":8080"

  /** `https://my.utaipei.edu.tw`, the portal. */
  const MyHttps := "https://" + "my." + UniversityDomain
  const MyHttp := "http://" + "my." + UniversityDomain
  /** `https://shcourse.utaipei.edu.tw`, the course-selection host. */
  const ShHttps := "https://" + "shcourse." + UniversityDomain
  const ShHttp := "http://" + "shcourse." + UniversityDomain
  /** `//localhost`, and the same with either scheme. */
  const Local := "//" + "localhost"
  const LocalHttps := "https:" + Local
  const LocalHttp := "http:" + Local

  /** The URL links are pointed at. */
  function ProxyHost(public: string): string {
    if public == "" then DefaultPublic else public
  }

  /** The first group: the upstream and `localhost` origins, in the order they are replaced. */
  function ReplaceOrigins(s: string, h: string): string {
    var s1 := ReplaceAll(s, MyHttps, h);
    var s2 := ReplaceAll(s1, MyHttp, h);
    var s3 := ReplaceAll(s2, ShHttps, h + "/shcourse");
    var s4 := ReplaceAll(s3, ShHttp, h + "/shcourse");
    var s5 := ReplaceAll(s4, LocalHttps, h + "/utaipei");
    var s6 := ReplaceAll(s5, LocalHttp, h + "/utaipei");
    ReplaceAll(s6, Local, h + "/utaipei")
  }

  /** The JavaScript location assignments, double-quoted then single-quoted. */
  const ScriptPrefixes: seq<string> := [
    "window.location.href=\"", "window.location=\"", "location.href=\"", "location=\"",
    "document.location=\"", "document.location.href=\"",
    "window.location.href='", "window.location='", "location.href='", "location='" ]

  /** Form actions, frame sources, links, and `top`/`parent` location assignments. */
  const AttributePrefixes: seq<string> := [
    "action=\"", "action='", "src=\"", "src='", "href=\"", "href='",
    "top.location=\"", "parent.location=\"", "top.location='", "parent.location='" ]

  /** Replaces `prefix + MyHttps` by `prefix + h` for each prefix in turn. */
  function ApplyPrefixed(s: string, prefixes: seq<string>, h: string): string
    decreases |prefixes|
  {
    if |prefixes| == 0 then s
    else ApplyPrefixed(ReplaceAll(s, prefixes[0] + MyHttps, prefixes[0] + h), prefixes[1..], h)
  }

  /**
   * `<meta[^>]*http-equiv="refresh"[^>]*content="[^"]*url=https://my\.utaipei\.edu\.tw([^"]*)"[^>]*>`
   */
  const MetaRefresh := Regex(false, [
    Lit("<meta"), Star(NoneOf(">"), false), Lit("http-equiv=\"refresh\""), Star(NoneOf(">"), false),
    Lit("content=\""), Star(NoneOf("\""), false), Lit("url=" + MyHttps),
    Mark, Star(NoneOf("\""), false), Mark, Lit("\""), Star(NoneOf(">"), false), Lit(">")])

  /** Inside each meta refresh tag that names the portal, the portal's origin becomes `h`. */
  function RefreshFixed(s: string, h: string): string {
    ReplaceFrom(MetaRefresh, s, 0, 0, (k: nat, m: string, g: seq<string>) => ReplaceAll(m, MyHttps, h))
  }

  /** `replaceTargetURLs`; its unused `basePath` argument is not modelled. */
  function ReplaceTargetUrls(public: string, html: string): string {
    var h := ProxyHost(public);
    var origins := ReplaceOrigins(html, h);
    var scripts := ApplyPrefixed(origins, ScriptPrefixes, h);
    ApplyPrefixed(RefreshFixed(scripts, h), AttributePrefixes, h)
  }

  // ------------------------------------------------------------ properties

  /**
   * A public URL that cannot re-create an origin the first group has
   * removed: no copy of a replacement can run into or out of an origin
   * replaced before it or by it.
   */
  ghost predicate Clean(h: string) {
    && Overlapless(h, MyHttps) && Overlapless(h, MyHttp)
    && Overlapless(h + "/shcourse", MyHttps) && Overlapless(h + "/shcourse", MyHttp)
    && Overlapless(h + "/shcourse", ShHttps) && Overlapless(h + "/shcourse", ShHttp)
    && Overlapless(h + "/utaipei", MyHttps) && Overlapless(h + "/utaipei", MyHttp)
    && Overlapless(h + "/utaipei", ShHttps) && Overlapless(h + "/utaipei", ShHttp)
    && Overlapless(h + "/utaipei", Local)
  }

  /** The origins the first group leaves no trace of. */
  predicate NoOrigin(s: string) {
    !Contains(s, MyHttps) && !Contains(s, MyHttp) && !Contains(s, ShHttps) && !Contains(s, ShHttp)
    && !Contains(s, LocalHttps) && !Contains(s, LocalHttp) && !Contains(s, Local)
  }

  /** A text without the portal's HTTPS origin has none of the later groups' patterns. */
  lemma {:induction false} PrefixedIdle(s: string, prefixes: seq<string>, h: string)
    requires !Contains(s, MyHttps)
    ensures ApplyPrefixed(s, prefixes, h) == s
    decreases |prefixes|
  {
    if |prefixes| > 0 {
      ContainsOfPart(s, prefixes[0], MyHttps, "");
      assert prefixes[0] + MyHttps + "" == prefixes[0] + MyHttps;
      ReplaceAllAbsent(s, prefixes[0] + MyHttps, prefixes[0] + h);
      PrefixedIdle(s, prefixes[1..], h);
    }
  }

  /** Without the portal's HTTPS origin there is no meta refresh tag to fix. */
  lemma RefreshIdle(s: string, h: string)
    requires !Contains(s, MyHttps)
    ensures RefreshFixed(s, h) == s
  {
    ContainsOfPart(s, "url=", MyHttps, "");
    assert "url=" + MyHttps + "" == MetaRefresh.pieces[6].text;
    AbsentLiteralNoMatch(MetaRefresh, s, 6);
    NoMatchIdentity(MetaRefresh, s, (k: nat, m: string, g: seq<string>) => ReplaceAll(m, MyHttps, h));
  }

  /** After the first group no origin is left, and the portal's HTTPS origin stays out. */
  lemma OriginsRemoved(html: string, h: string)
    requires Clean(h)
    ensures NoOrigin(ReplaceOrigins(html, h))
  {
    var hs, hu := h + "/shcourse", h + "/utaipei";
    var s1 := ReplaceAll(html, MyHttps, h);
    var s2 := ReplaceAll(s1, MyHttp, h);
    var s3 := ReplaceAll(s2, ShHttps, hs);
    var s4 := ReplaceAll(s3, ShHttp, hs);
    var s5 := ReplaceAll(s4, LocalHttps, hu);
    var s6 := ReplaceAll(s5, LocalHttp, hu);
    var s7 := ReplaceAll(s6, Local, hu);
    ReplaceAllRemoves(html, MyHttps, h);
    ReplaceAllRemoves(s1, MyHttp, h);
    ReplaceAllKeepsOut(s1, MyHttp, h, MyHttps);
    ReplaceAllRemoves(s2, ShHttps, hs);
    ReplaceAllKeepsOut(s2, ShHttps, hs, MyHttps);
    ReplaceAllKeepsOut(s2, ShHttps, hs, MyHttp);
    ReplaceAllRemoves(s3, ShHttp, hs);
    ReplaceAllKeepsOut(s3, ShHttp, hs, MyHttps);
    ReplaceAllKeepsOut(s3, ShHttp, hs, MyHttp);
    ReplaceAllKeepsOut(s3, ShHttp, hs, ShHttps);
    KeepsFour(s4, LocalHttps, hu);
    KeepsFour(s5, LocalHttp, hu);
    KeepsFour(s6, Local, hu);
    ReplaceAllRemoves(s6, Local, hu);
    LocalOrigins(s7);
  }

  /** Replacing a `localhost` origin by `hu` keeps the four upstream origins out. */
  lemma KeepsFour(s: string, q: string, hu: string)
    requires |q| > 0
    requires Overlapless(hu, MyHttps) && Overlapless(hu, MyHttp) && Overlapless(hu, ShHttps) && Overlapless(hu, ShHttp)
    requires !Contains(s, MyHttps) && !Contains(s, MyHttp) && !Contains(s, ShHttps) && !Contains(s, ShHttp)
    ensures var t := ReplaceAll(s, q, hu);
      !Contains(t, MyHttps) && !Contains(t, MyHttp) && !Contains(t, ShHttps) && !Contains(t, ShHttp)
  {
    ReplaceAllKeepsOut(s, q, hu, MyHttps);
    ReplaceAllKeepsOut(s, q, hu, MyHttp);
    ReplaceAllKeepsOut(s, q, hu, ShHttps);
    ReplaceAllKeepsOut(s, q, hu, ShHttp);
  }

  /** Both `localhost` origins contain `//localhost`. */
  lemma LocalOrigins(s: string)
    ensures !Contains(s, Local) ==> !Contains(s, LocalHttps) && !Contains(s, LocalHttp)
  {
    ContainsOfPart(s, "https:", Local, "");
    assert "https:" + Local + "" == LocalHttps;
    ContainsOfPart(s, "http:", Local, "");
    assert "http:" + Local + "" == LocalHttp;
  }

  /**
   * For a clean public URL only the origin group changes anything: the
   * location, meta refresh and attribute rewrites never fire.
   */
  lemma LaterGroupsIdle(public: string, html: string)
    requires Clean(ProxyHost(public))
    ensures ReplaceTargetUrls(public, html) == ReplaceOrigins(html, ProxyHost(public))
  {
    var h := ProxyHost(public);
    var origins := ReplaceOrigins(html, h);
    OriginsRemoved(html, h);
    PrefixedIdle(origins, ScriptPrefixes, h);
    RefreshIdle(origins, h);
    PrefixedIdle(origins, AttributePrefixes, h);
  }

  /**
   * For a clean public URL the result names neither upstream host nor
   * `localhost` by an absolute origin: each has been pointed at the proxy.
   */
  lemma OriginsPointAtProxy(public: string, html: string)
    requires Clean(ProxyHost(public))
    ensures NoOrigin(ReplaceTargetUrls(public, html))
  {
    LaterGroupsIdle(public, html);
    OriginsRemoved(html, ProxyHost(public));
  }

  /** A text with no origin passes through the origin group unchanged. */
  lemma OriginsIdle(s: string, h: string)
    requires NoOrigin(s)
    ensures ReplaceOrigins(s, h) == s
  {
    ReplaceAllAbsent(s, MyHttps, h);
    ReplaceAllAbsent(s, MyHttp, h);
    ReplaceAllAbsent(s, ShHttps, h + "/shcourse");
    ReplaceAllAbsent(s, ShHttp, h + "/shcourse");
    ReplaceAllAbsent(s, LocalHttps, h + "/utaipei");
    ReplaceAllAbsent(s, LocalHttp, h + "/utaipei");
    ReplaceAllAbsent(s, Local, h + "/utaipei");
  }

  /** A page that names no upstream or `localhost` origin passes through unchanged. */
  lemma NothingToRewrite(public: string, html: string)
    requires NoOrigin(html)
    ensures ReplaceTargetUrls(public, html) == html
  {
    var h := ProxyHost(public);
    OriginsIdle(html, h);
    PrefixedIdle(html, ScriptPrefixes, h);
    RefreshIdle(html, h);
    PrefixedIdle(html, AttributePrefixes, h);
  }

  /**
   * For a clean public URL the rewrite is idempotent. (For a public URL
   * that contains `//localhost`, the `localhost` rules fire again on their
   * own output, and it is not.)
   */
  lemma Idempotent(public: string, html: string)
    requires Clean(ProxyHost(public))
    ensures ReplaceTargetUrls(public, ReplaceTargetUrls(public, html)) == ReplaceTargetUrls(public, html)
  {
    var once := ReplaceTargetUrls(public, html);
    OriginsPointAtProxy(public, html);
    LaterGroupsIdle(public, once);
    OriginsIdle(once, ProxyHost(public));
  }

  /** With no public URL configured, links point at `http://127.0.0.1:8080`, which is clean. */
  lemma DefaultIsClean()
    ensures ProxyHost("") == DefaultPublic && Clean(ProxyHost(""))
  {
    PublicAvoidsMyHttps();
    PublicAvoidsMyHttp();
    CourseAvoidsMyHttps();
    CourseAvoidsMyHttp();
    CourseAvoidsShHttps();
    CourseAvoidsShHttp();
    PortalAvoidsMyHttps();
    PortalAvoidsMyHttp();
    PortalAvoidsShHttps();
    PortalAvoidsShHttp();
    PortalAvoidsLocal();
  }

  /** `http://127.0.0.1:8080` cannot produce or extend `https://my.utaipei.edu.tw`. */
  lemma PublicAvoidsMyHttps()
    ensures Overlapless(DefaultPublic, MyHttps)
  {
    var r, q := DefaultPublic, MyHttps;
    forall j | 0 <= j < |r| ensures !Comparable(r[j..], q) {
      if j == 0 {
        HeadDiffers(r[0..], q, 4);
      } else if j < 7 {
        FirstRuneAbsent(r, q, 1, 7);
      } else if j < 13 {
        FirstRuneAbsent(r, q, 7, 13);
      } else if j < 19 {
        FirstRuneAbsent(r, q, 13, 19);
      } else {
        FirstRuneAbsent(r, q, 19, 21);
      }
    }
    forall k | 1 <= k < |q| ensures !Comparable(q[k..], r) {
      if k < 7 {
        FirstRuneAbsent(q, r, 1, 7);
      } else if k < 13 {
        FirstRuneAbsent(q, r, 7, 13);
      } else if k < 19 {
        FirstRuneAbsent(q, r, 13, 19);
      } else {
        FirstRuneAbsent(q, r, 19, 25);
      }
    }
  }

  /** `http://127.0.0.1:8080` cannot produce or extend `http://my.utaipei.edu.tw`. */
  lemma PublicAvoidsMyHttp()
    ensures Overlapless(DefaultPublic, MyHttp)
  {
    var r, q := DefaultPublic, MyHttp;
    forall j | 0 <= j < |r| ensures !Comparable(r[j..], q) {
      if j == 0 {
        HeadDiffers(r[0..], q, 7);
      } else if j < 7 {
        FirstRuneAbsent(r, q, 1, 7);
      } else if j < 13 {
        FirstRuneAbsent(r, q, 7, 13);
      } else if j < 19 {
        FirstRuneAbsent(r, q, 13, 19);
      } else {
        FirstRuneAbsent(r, q, 19, 21);
      }
    }
    forall k | 1 <= k < |q| ensures !Comparable(q[k..], r) {
      if k < 7 {
        FirstRuneAbsent(q, r, 1, 7);
      } else if k < 13 {
        FirstRuneAbsent(q, r, 7, 13);
      } else if k < 19 {
        FirstRuneAbsent(q, r, 13, 19);
      } else {
        FirstRuneAbsent(q, r, 19, 24);
      }
    }
  }

  /** `http://127.0.0.1:8080/shcourse` cannot produce or extend `https://my.utaipei.edu.tw`. */
  lemma CourseAvoidsMyHttps()
    ensures Overlapless(DefaultPublic + "/shcourse", MyHttps)
  {
    var r, q := DefaultPublic + "/shcourse", MyHttps;
    forall j | 0 <= j < |r| ensures !Comparable(r[j..], q) {
      if j == 0 {
        HeadDiffers(r[0..], q, 4);
      } else if j < 7 {
        FirstRuneAbsent(r, q, 1, 7);
      } else if j < 13 {
        FirstRuneAbsent(r, q, 7, 13);
      } else if j < 19 {
        FirstRuneAbsent(r, q, 13, 19);
      } else if j < 23 {
        FirstRuneAbsent(r, q, 19, 23);
      } else if j == 23 {
        HeadDiffers(r[23..], q, 1);
      } else {
        FirstRuneAbsent(r, q, 24, 30);
      }
    }
    forall k | 1 <= k < |q| ensures !Comparable(q[k..], r) {
      if k < 7 {
        FirstRuneAbsent(q, r, 1, 7);
      } else if k < 13 {
        FirstRuneAbsent(q, r, 7, 13);
      } else if k < 19 {
        FirstRuneAbsent(q, r, 13, 19);
      } else {
        FirstRuneAbsent(q, r, 19, 25);
      }
    }
  }

  /** `http://127.0.0.1:8080/shcourse` cannot produce or extend `http://my.utaipei.edu.tw`. */
  lemma CourseAvoidsMyHttp()
    ensures Overlapless(DefaultPublic + "/shcourse", MyHttp)
  {
    var r, q := DefaultPublic + "/shcourse", MyHttp;
    forall j | 0 <= j < |r| ensures !Comparable(r[j..], q) {
      if j == 0 {
        HeadDiffers(r[0..], q, 7);
      } else if j < 7 {
        FirstRuneAbsent(r, q, 1, 7);
      } else if j < 13 {
        FirstRuneAbsent(r, q, 7, 13);
      } else if j < 19 {
        FirstRuneAbsent(r, q, 13, 19);
      } else if j < 23 {
        FirstRuneAbsent(r, q, 19, 23);
      } else if j == 23 {
        HeadDiffers(r[23..], q, 1);
      } else {
        FirstRuneAbsent(r, q, 24, 30);
      }
    }
    forall k | 1 <= k < |q| ensures !Comparable(q[k..], r) {
      if k < 7 {
        FirstRuneAbsent(q, r, 1, 7);
      } else if k < 13 {
        FirstRuneAbsent(q, r, 7, 13);
      } else if k < 19 {
        FirstRuneAbsent(q, r, 13, 19);
      } else {
        FirstRuneAbsent(q, r, 19, 24);
      }
    }
  }

  /** `http://127.0.0.1:8080/shcourse` cannot produce or extend `https://shcourse.utaipei.edu.tw`. */
  lemma CourseAvoidsShHttps()
    ensures Overlapless(DefaultPublic + "/shcourse", ShHttps)
  {
    var r, q := DefaultPublic + "/shcourse", ShHttps;
    forall j | 0 <= j < |r| ensures !Comparable(r[j..], q) {
      if j == 0 {
        HeadDiffers(r[0..], q, 4);
      } else if j < 7 {
        FirstRuneAbsent(r, q, 1, 7);
      } else if j < 13 {
        FirstRuneAbsent(r, q, 7, 13);
      } else if j < 19 {
        FirstRuneAbsent(r, q, 13, 19);
      } else if j < 23 {
        FirstRuneAbsent(r, q, 19, 23);
      } else if j == 23 {
        HeadDiffers(r[23..], q, 1);
      } else {
        FirstRuneAbsent(r, q, 24, 30);
      }
    }
    forall k | 1 <= k < |q| ensures !Comparable(q[k..], r) {
      if k < 7 {
        FirstRuneAbsent(q, r, 1, 7);
      } else if k < 9 {
        FirstRuneAbsent(q, r, 7, 9);
      } else if k == 9 {
        HeadDiffers(q[9..], r, 1);
      } else if k < 16 {
        FirstRuneAbsent(q, r, 10, 16);
      } else if k < 22 {
        FirstRuneAbsent(q, r, 16, 22);
      } else if k < 28 {
        FirstRuneAbsent(q, r, 22, 28);
      } else {
        FirstRuneAbsent(q, r, 28, 31);
      }
    }
  }

  /** `http://127.0.0.1:8080/shcourse` cannot produce or extend `http://shcourse.utaipei.edu.tw`. */
  lemma CourseAvoidsShHttp()
    ensures Overlapless(DefaultPublic + "/shcourse", ShHttp)
  {
    var r, q := DefaultPublic + "/shcourse", ShHttp;
    forall j | 0 <= j < |r| ensures !Comparable(r[j..], q) {
      if j == 0 {
        HeadDiffers(r[0..], q, 7);
      } else if j < 7 {
        FirstRuneAbsent(r, q, 1, 7);
      } else if j < 13 {
        FirstRuneAbsent(r, q, 7, 13);
      } else if j < 19 {
        FirstRuneAbsent(r, q, 13, 19);
      } else if j < 23 {
        FirstRuneAbsent(r, q, 19, 23);
      } else if j == 23 {
        HeadDiffers(r[23..], q, 1);
      } else {
        FirstRuneAbsent(r, q, 24, 30);
      }
    }
    forall k | 1 <= k < |q| ensures !Comparable(q[k..], r) {
      if k < 7 {
        FirstRuneAbsent(q, r, 1, 7);
      } else if k == 7 {
        FirstRuneAbsent(q, r, 7, 8);
      } else if k == 8 {
        HeadDiffers(q[8..], r, 1);
      } else if k < 15 {
        FirstRuneAbsent(q, r, 9, 15);
      } else if k < 21 {
        FirstRuneAbsent(q, r, 15, 21);
      } else if k < 27 {
        FirstRuneAbsent(q, r, 21, 27);
      } else {
        FirstRuneAbsent(q, r, 27, 30);
      }
    }
  }

  /** `http://127.0.0.1:8080/utaipei` cannot produce or extend `https://my.utaipei.edu.tw`. */
  lemma PortalAvoidsMyHttps()
    ensures Overlapless(DefaultPublic + "/utaipei", MyHttps)
  {
    var r, q := DefaultPublic + "/utaipei", MyHttps;
    forall j | 0 <= j < |r| ensures !Comparable(r[j..], q) {
      if j == 0 {
        HeadDiffers(r[0..], q, 4);
      } else if j < 7 {
        FirstRuneAbsent(r, q, 1, 7);
      } else if j < 13 {
        FirstRuneAbsent(r, q, 7, 13);
      } else if j < 19 {
        FirstRuneAbsent(r, q, 13, 19);
      } else if j < 25 {
        FirstRuneAbsent(r, q, 19, 25);
      } else {
        FirstRuneAbsent(r, q, 25, 29);
      }
    }
    forall k | 1 <= k < |q| ensures !Comparable(q[k..], r) {
      if k < 7 {
        FirstRuneAbsent(q, r, 1, 7);
      } else if k < 13 {
        FirstRuneAbsent(q, r, 7, 13);
      } else if k < 19 {
        FirstRuneAbsent(q, r, 13, 19);
      } else {
        FirstRuneAbsent(q, r, 19, 25);
      }
    }
  }

  /** `http://127.0.0.1:8080/utaipei` cannot produce or extend `http://my.utaipei.edu.tw`. */
  lemma PortalAvoidsMyHttp()
    ensures Overlapless(DefaultPublic + "/utaipei", MyHttp)
  {
    var r, q := DefaultPublic + "/utaipei", MyHttp;
    forall j | 0 <= j < |r| ensures !Comparable(r[j..], q) {
      if j == 0 {
        HeadDiffers(r[0..], q, 7);
      } else if j < 7 {
        FirstRuneAbsent(r, q, 1, 7);
      } else if j < 13 {
        FirstRuneAbsent(r, q, 7, 13);
      } else if j < 19 {
        FirstRuneAbsent(r, q, 13, 19);
      } else if j < 25 {
        FirstRuneAbsent(r, q, 19, 25);
      } else {
        FirstRuneAbsent(r, q, 25, 29);
      }
    }
    forall k | 1 <= k < |q| ensures !Comparable(q[k..], r) {
      if k < 7 {
        FirstRuneAbsent(q, r, 1, 7);
      } else if k < 13 {
        FirstRuneAbsent(q, r, 7, 13);
      } else if k < 19 {
        FirstRuneAbsent(q, r, 13, 19);
      } else {
        FirstRuneAbsent(q, r, 19, 24);
      }
    }
  }

  /** `http://127.0.0.1:8080/utaipei` cannot produce or extend `https://shcourse.utaipei.edu.tw`. */
  lemma PortalAvoidsShHttps()
    ensures Overlapless(DefaultPublic + "/utaipei", ShHttps)
  {
    var r, q := DefaultPublic + "/utaipei", ShHttps;
    forall j | 0 <= j < |r| ensures !Comparable(r[j..], q) {
      if j == 0 {
        HeadDiffers(r[0..], q, 4);
      } else if j < 7 {
        FirstRuneAbsent(r, q, 1, 7);
      } else if j < 13 {
        FirstRuneAbsent(r, q, 7, 13);
      } else if j < 19 {
        FirstRuneAbsent(r, q, 13, 19);
      } else if j < 25 {
        FirstRuneAbsent(r, q, 19, 25);
      } else {
        FirstRuneAbsent(r, q, 25, 29);
      }
    }
    forall k | 1 <= k < |q| ensures !Comparable(q[k..], r) {
      if k < 7 {
        FirstRuneAbsent(q, r, 1, 7);
      } else if k < 9 {
        FirstRuneAbsent(q, r, 7, 9);
      } else if k == 9 {
        HeadDiffers(q[9..], r, 1);
      } else if k < 16 {
        FirstRuneAbsent(q, r, 10, 16);
      } else if k < 22 {
        FirstRuneAbsent(q, r, 16, 22);
      } else if k < 28 {
        FirstRuneAbsent(q, r, 22, 28);
      } else {
        FirstRuneAbsent(q, r, 28, 31);
      }
    }
  }

  /** `http://127.0.0.1:8080/utaipei` cannot produce or extend `http://shcourse.utaipei.edu.tw`. */
  lemma PortalAvoidsShHttp()
    ensures Overlapless(DefaultPublic + "/utaipei", ShHttp)
  {
    var r, q := DefaultPublic + "/utaipei", ShHttp;
    forall j | 0 <= j < |r| ensures !Comparable(r[j..], q) {
      if j == 0 {
        HeadDiffers(r[0..], q, 7);
      } else if j < 7 {
        FirstRuneAbsent(r, q, 1, 7);
      } else if j < 13 {
        FirstRuneAbsent(r, q, 7, 13);
      } else if j < 19 {
        FirstRuneAbsent(r, q, 13, 19);
      } else if j < 25 {
        FirstRuneAbsent(r, q, 19, 25);
      } else {
        FirstRuneAbsent(r, q, 25, 29);
      }
    }
    forall k | 1 <= k < |q| ensures !Comparable(q[k..], r) {
      if k < 7 {
        FirstRuneAbsent(q, r, 1, 7);
      } else if k == 7 {
        FirstRuneAbsent(q, r, 7, 8);
      } else if k == 8 {
        HeadDiffers(q[8..], r, 1);
      } else if k < 15 {
        FirstRuneAbsent(q, r, 9, 15);
      } else if k < 21 {
        FirstRuneAbsent(q, r, 15, 21);
      } else if k < 27 {
        FirstRuneAbsent(q, r, 21, 27);
      } else {
        FirstRuneAbsent(q, r, 27, 30);
      }
    }
  }

  /** `http://127.0.0.1:8080/utaipei` cannot produce or extend `//localhost`. */
  lemma PortalAvoidsLocal()
    ensures Overlapless(DefaultPublic + "/utaipei", Local)
  {
    var r, q := DefaultPublic + "/utaipei", Local;
    forall j | 0 <= j < |r| ensures !Comparable(r[j..], q) {
      if j < 5 {
        FirstRuneAbsent(r, q, 0, 5);
      } else if j == 5 {
        HeadDiffers(r[5..], q, 2);
      } else if j == 6 {
        HeadDiffers(r[6..], q, 1);
      } else if j < 13 {
        FirstRuneAbsent(r, q, 7, 13);
      } else if j < 19 {
        FirstRuneAbsent(r, q, 13, 19);
      } else if j < 21 {
        FirstRuneAbsent(r, q, 19, 21);
      } else if j == 21 {
        HeadDiffers(r[21..], q, 1);
      } else if j < 28 {
        FirstRuneAbsent(r, q, 22, 28);
      } else {
        FirstRuneAbsent(r, q, 28, 29);
      }
    }
    forall k | 1 <= k < |q| ensures !Comparable(q[k..], r) {
      if k < 7 {
        FirstRuneAbsent(q, r, 1, 7);
      } else if k == 7 {
        HeadDiffers(q[7..], r, 1);
      } else {
        FirstRuneAbsent(q, r, 8, 11);
      }
    }
  }
}
