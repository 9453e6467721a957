/**
 * The header block of every outbound hop: what the proxy copies from the
 * browser's request and which headers it forces, defaults or rewrites so
 * that the request looks as if it came from the school's own pages.
 */
module RequestHeaders {
  import opened Text
  import opened Http

  /** The upstream site (`targetURL`) and the proxy's own public address (`publicURL`). */
  datatype Proxy = Proxy(target: string, public: string)

  /** The school's entry page, relative to the upstream origin. */
  const IndexPage := "/utaipei/index_sky.html"
  const DefaultUserAgent := "Mozilla/5.0 (Windows NT 10.0; Win64; x64) AppleWebKit/537.36 (KHTML, like Gecko) Chrome/120.0.0.0 Safari/537.36"
  const AjaxAccept := "application/json, text/javascript, */*; q=0.01"
  const PageAccept := "text/html,application/xhtml+xml,application/xml;q=0.9,image/webp,*/*;q=0.8"
  const DefaultLanguage := "zh-TW,zh;q=0.9,en;q=0.8"
  const DefaultEncoding := "gzip, deflate"
  const NoCache := "no-cache"

  /** The headers the proxy decides itself; every other header is copied. */
  const Managed: set<string> := {
    "Referer", "User-Agent", "Accept", "Accept-Language", "Accept-Encoding",
    "Cache-Control", "Pragma", "Connection", "Upgrade-Insecure-Requests",
    "X-Requested-With", "Origin"
  }

  /** A login or authorisation URL: its lower case mentions uaa, auth or login. */
  predicate IsAuthUrl(url: string) {
    var l := Lower(url);
    Contains(l, "uaa") || Contains(l, "auth") || Contains(l, "login")
  }

  /** A JavaScript (XMLHttpRequest) request. */
  predicate IsAjax(inbound: Header) {
    Get(inbound, "X-Requested-With") == "XMLHttpRequest"
  }

  /** Cookie values forwarded to a JSP page: trimmed, and the blank ones dropped. */
  function CleanCookies(vs: seq<string>): (r: seq<string>)
    ensures |r| <= |vs|
    ensures forall j :: 0 <= j < |r| ==> r[j] != "" && TrimSpace(r[j]) == r[j]
    ensures (forall j :: 0 <= j < |vs| ==> vs[j] != "" && TrimSpace(vs[j]) == vs[j]) ==> r == vs
  {
    if |vs| == 0 then []
    else
      var t := TrimSpace(vs[0]);
      TrimSpaceIdempotent(vs[0]);
      (if t == "" then [] else [t]) + CleanCookies(vs[1..])
  }

  /** The values of inbound header `key` that reach the hop to `url`. */
  function Forwarded(key: string, vs: seq<string>, url: string): seq<string> {
    if Lower(key) == "cookie" && Contains(Lower(url), ".jsp") then CleanCookies(vs) else vs
  }

  /** The copy loop: every header except Host, value by value. */
  function Copied(inbound: Header, url: string): Header {
    map k | k in inbound && Lower(k) != "host" && |Forwarded(k, inbound[k], url)| > 0
      :: Forwarded(k, inbound[k], url)
  }

  /** Sets `key` to `v` unless it already has a non-empty first value. */
  function Default(h: Header, key: string, v: string): Header {
    if Get(h, key) == "" then Set(h, key, v) else h
  }

  /** The Referer of the hop: the school's index page for login URLs and when the browser sent none. */
  function RefererFor(p: Proxy, inbound: Header, url: string): string {
    if IsAuthUrl(url) then p.target + IndexPage
    else if Get(inbound, "Referer") != "" then ReplaceAll(Get(inbound, "Referer"), p.public, p.target)
    else p.target + IndexPage
  }

  /** The Origin of the hop: the upstream origin for login URLs and when the browser sent none. */
  function OriginFor(p: Proxy, inbound: Header, url: string): string {
    if IsAuthUrl(url) then p.target
    else if Get(inbound, "Origin") != "" then ReplaceAll(Get(inbound, "Origin"), p.public, p.target)
    else p.target
  }

  /** The browser a hop claims to be: User-Agent and Accept, defaulted when missing. */
  function IdentityHeaders(h: Header, inbound: Header): (out: Header)
    ensures forall k :: k in {"Referer", "Accept-Language", "Accept-Encoding", "Connection", "Upgrade-Insecure-Requests"} ==>
      (k in out <==> k in h) && (k in h ==> out[k] == h[k])
    ensures "User-Agent" in out && "Accept" in out
    ensures Get(h, "User-Agent") != "" ==> out["User-Agent"] == h["User-Agent"]
    ensures Get(h, "User-Agent") == "" ==>
      out["User-Agent"] == [if Get(inbound, "User-Agent") != "" then Get(inbound, "User-Agent") else DefaultUserAgent]
    ensures Get(h, "Accept") != "" ==> out["Accept"] == h["Accept"]
    ensures Get(h, "Accept") == "" ==> out["Accept"] == [if IsAjax(inbound) then AjaxAccept else PageAccept]
  {
    var withAgent :=
      if Get(h, "User-Agent") == "" then
        Set(h, "User-Agent",
            if Get(inbound, "User-Agent") != "" then Get(inbound, "User-Agent") else DefaultUserAgent)
      else h;
    Default(withAgent, "Accept", if IsAjax(inbound) then AjaxAccept else PageAccept)
  }

  /** The language and encoding a hop accepts, defaulted when missing. */
  function LanguageHeaders(h: Header): (out: Header)
    ensures forall k :: k in {"Referer", "User-Agent", "Accept", "Connection", "Upgrade-Insecure-Requests"} ==>
      (k in out <==> k in h) && (k in h ==> out[k] == h[k])
    ensures "Accept-Language" in out && "Accept-Encoding" in out
    ensures Get(h, "Accept-Language") != "" ==> out["Accept-Language"] == h["Accept-Language"]
    ensures Get(h, "Accept-Language") == "" ==> out["Accept-Language"] == [DefaultLanguage]
    ensures Get(h, "Accept-Encoding") != "" ==> out["Accept-Encoding"] == h["Accept-Encoding"]
    ensures Get(h, "Accept-Encoding") == "" ==> out["Accept-Encoding"] == [DefaultEncoding]
  {
    Default(Default(h, "Accept-Language", DefaultLanguage), "Accept-Encoding", DefaultEncoding)
  }

  /** The browser identity a hop claims: User-Agent and the Accept family. */
  function AgentHeaders(h: Header, inbound: Header): Header {
    LanguageHeaders(IdentityHeaders(h, inbound))
  }

  /** The headers the connection stage may set. */
  const SessionKeys: set<string> := {"Cache-Control", "Pragma", "Connection", "Upgrade-Insecure-Requests", "X-Requested-With"}

  /** The forced no-cache pair, the connection defaults and the Ajax marker. */
  function SessionHeaders(h: Header, inbound: Header, verb: string): (out: Header)
    ensures "Cache-Control" in out && out["Cache-Control"] == [NoCache]
    ensures "Pragma" in out && out["Pragma"] == [NoCache]
    ensures "Referer" in h ==> "Referer" in out && out["Referer"] == h["Referer"]
    ensures forall k :: k !in SessionKeys ==> (k in out <==> k in h) && (k in h ==> out[k] == h[k])
  {
    var noCache := Set(Set(h, "Cache-Control", NoCache), "Pragma", NoCache);
    var withConnection := Default(noCache, "Connection", "keep-alive");
    var withUpgrade :=
      if Get(withConnection, "Upgrade-Insecure-Requests") == "" && verb == "GET"
      then Set(withConnection, "Upgrade-Insecure-Requests", "1") else withConnection;
    if IsAjax(inbound) then Set(withUpgrade, "X-Requested-With", "XMLHttpRequest") else withUpgrade
  }

  /** The browser-like defaults and the forced no-cache headers, applied in the proxy's order. */
  function BrowserHeaders(h: Header, inbound: Header, verb: string): (out: Header)
    ensures "Cache-Control" in out && out["Cache-Control"] == [NoCache]
    ensures "Pragma" in out && out["Pragma"] == [NoCache]
    ensures "Referer" in h ==> "Referer" in out && out["Referer"] == h["Referer"]
  {
    SessionHeaders(AgentHeaders(h, inbound), inbound, verb)
  }

  /** The copied headers with the hop's Referer. */
  function Base(p: Proxy, inbound: Header, url: string): Header {
    Set(Copied(inbound, url), "Referer", RefererFor(p, inbound, url))
  }

  /**
   * The headers of the hop to `url` for an inbound request with headers
   * `inbound` whose method is currently `verb`.
   */
  function Normalize(p: Proxy, inbound: Header, url: string, verb: string): (out: Header)
    ensures "Cache-Control" in out && out["Cache-Control"] == [NoCache]
    ensures "Pragma" in out && out["Pragma"] == [NoCache]
    ensures "Referer" in out && out["Referer"] == [RefererFor(p, inbound, url)]
    ensures "Origin" in out && out["Origin"] == [OriginFor(p, inbound, url)]
  {
    Set(BrowserHeaders(Base(p, inbound, url), inbound, verb), "Origin", OriginFor(p, inbound, url))
  }

  /** The defaults touch only managed headers. */
  lemma BrowserHeadersElsewhere(h: Header, inbound: Header, verb: string, k: string)
    requires k !in Managed
    ensures var out := BrowserHeaders(h, inbound, verb);
      (k in out <==> k in h) && (k in h ==> out[k] == h[k])
  {
    var i := IdentityHeaders(h, inbound);
    assert (k in i <==> k in h) && (k in h ==> i[k] == h[k]);
    var mid := LanguageHeaders(i);
    assert (k in mid <==> k in h) && (k in h ==> mid[k] == h[k]);
  }

  /**
   * Every header the proxy does not manage reaches the hop exactly as the
   * copy loop forwards it: Host never, a cookie of a JSP hop trimmed, the
   * others unchanged.
   */
  lemma CopiesTheRest(p: Proxy, inbound: Header, url: string, verb: string, k: string)
    requires k !in Managed
    ensures var out := Normalize(p, inbound, url, verb);
      && (k in out <==> k in inbound && Lower(k) != "host" && |Forwarded(k, inbound[k], url)| > 0)
      && (k in out ==> out[k] == Forwarded(k, inbound[k], url))
  {
    BrowserHeadersElsewhere(Base(p, inbound, url), inbound, verb, k);
  }

  /** No managed header is the Host header, so the hop never carries one in its header map. */
  lemma NoHostHeader(p: Proxy, inbound: Header, url: string, verb: string)
    ensures forall k :: k in Normalize(p, inbound, url, verb) ==> Lower(k) != "host"
  {
    PlainKeys();
    forall k | k in Normalize(p, inbound, url, verb) && k !in Managed ensures Lower(k) != "host" {
      CopiesTheRest(p, inbound, url, verb, k);
    }
  }

  /** For a login URL the hop always claims to come from the school's index page. */
  lemma AuthUrlLooksInternal(p: Proxy, inbound: Header, url: string, verb: string)
    requires IsAuthUrl(url)
    ensures var out := Normalize(p, inbound, url, verb);
      out["Referer"] == [p.target + IndexPage] && out["Origin"] == [p.target]
  {
  }

  /** The header names the copy loop passes through untouched. */
  lemma PlainKeys()
    ensures forall k :: k in Managed ==> Lower(k) != "cookie" && Lower(k) != "host"
  {
    forall k | k in Managed ensures Lower(k) != "cookie" && Lower(k) != "host" {
      assert |Lower(k)| == |k|;
      if |k| == 6 {
        assert Lower(k)[0] == LowerChar(k[0]) != 'c';
      }
    }
  }

  /** A header the proxy manages is neither a cookie nor the Host header. */
  lemma PlainKey(k: string)
    requires k in Managed
    ensures Lower(k) != "cookie" && Lower(k) != "host"
  {
    PlainKeys();
  }

  /** A managed header other than Referer reaches the hop's base exactly as it came in. */
  lemma BasePlain(p: Proxy, inbound: Header, url: string, k: string)
    requires k in Managed && k != "Referer"
    ensures Get(Base(p, inbound, url), k) == Get(inbound, k)
    ensures Get(inbound, k) != "" ==> k in Base(p, inbound, url) && Base(p, inbound, url)[k] == inbound[k]
  {
    PlainKey(k);
  }

  // The connection stage, on its own.

  lemma SessionConnection(h: Header, inbound: Header, verb: string)
    ensures var out := SessionHeaders(h, inbound, verb);
      && "Connection" in out
      && (Get(h, "Connection") != "" ==> out["Connection"] == h["Connection"])
      && (Get(h, "Connection") == "" ==> out["Connection"] == ["keep-alive"])
  {
  }

  lemma SessionUpgrade(h: Header, inbound: Header, verb: string)
    ensures var out := SessionHeaders(h, inbound, verb);
      && (Get(h, "Upgrade-Insecure-Requests") == "" && verb == "GET" ==>
            "Upgrade-Insecure-Requests" in out && out["Upgrade-Insecure-Requests"] == ["1"])
      && (Get(h, "Upgrade-Insecure-Requests") == "" && verb != "GET" ==>
            Get(out, "Upgrade-Insecure-Requests") == "")
  {
  }

  lemma SessionAjax(h: Header, inbound: Header, verb: string)
    ensures IsAjax(inbound) ==> var out := SessionHeaders(h, inbound, verb);
      "X-Requested-With" in out && out["X-Requested-With"] == ["XMLHttpRequest"]
  {
  }

  /** The identity and language stages leave the connection headers alone. */
  lemma AgentSkips(h: Header, inbound: Header, k: string)
    requires k == "Connection" || k == "Upgrade-Insecure-Requests"
    ensures var a := AgentHeaders(h, inbound);
      (k in a <==> k in h) && (k in h ==> a[k] == h[k])
  {
    var i := IdentityHeaders(h, inbound);
    assert (k in i <==> k in h) && (k in h ==> i[k] == h[k]);
  }

  /** The connection stage sees a connection header as the browser sent it. */
  lemma SessionSees(p: Proxy, inbound: Header, url: string, k: string)
    requires k == "Connection" || k == "Upgrade-Insecure-Requests"
    ensures var a := AgentHeaders(Base(p, inbound, url), inbound);
      && Get(a, k) == Get(inbound, k)
      && (Get(inbound, k) != "" ==> k in a && a[k] == inbound[k])
  {
    BasePlain(p, inbound, url, k);
    AgentSkips(Base(p, inbound, url), inbound, k);
  }

  /** What the connection stage makes of a header other than Origin is what the hop carries. */
  lemma SessionReaches(p: Proxy, inbound: Header, url: string, verb: string, k: string)
    requires k != "Origin"
    ensures var s, out := SessionHeaders(AgentHeaders(Base(p, inbound, url), inbound), inbound, verb), Normalize(p, inbound, url, verb);
      (k in out <==> k in s) && (k in s ==> out[k] == s[k])
  {
  }

  /** Connection: kept when sent, keep-alive otherwise. */
  lemma ConnectionDefault(p: Proxy, inbound: Header, url: string, verb: string)
    ensures var out := Normalize(p, inbound, url, verb);
      && "Connection" in out
      && (Get(inbound, "Connection") != "" ==> out["Connection"] == inbound["Connection"])
      && (Get(inbound, "Connection") == "" ==> out["Connection"] == ["keep-alive"])
  {
    var a := AgentHeaders(Base(p, inbound, url), inbound);
    SessionSees(p, inbound, url, "Connection");
    SessionConnection(a, inbound, verb);
    SessionReaches(p, inbound, url, verb, "Connection");
  }

  /** Upgrade-Insecure-Requests: 1 for a GET that did not send it, absent for any other method that did not. */
  lemma UpgradeDefault(p: Proxy, inbound: Header, url: string, verb: string)
    ensures var out := Normalize(p, inbound, url, verb);
      && (Get(inbound, "Upgrade-Insecure-Requests") == "" && verb == "GET" ==>
            "Upgrade-Insecure-Requests" in out && out["Upgrade-Insecure-Requests"] == ["1"])
      && (Get(inbound, "Upgrade-Insecure-Requests") == "" && verb != "GET" ==>
            Get(out, "Upgrade-Insecure-Requests") == "")
  {
    var a := AgentHeaders(Base(p, inbound, url), inbound);
    SessionSees(p, inbound, url, "Upgrade-Insecure-Requests");
    SessionUpgrade(a, inbound, verb);
    SessionReaches(p, inbound, url, verb, "Upgrade-Insecure-Requests");
  }

  /** An XMLHttpRequest keeps its marker. */
  lemma AjaxMarked(p: Proxy, inbound: Header, url: string, verb: string)
    ensures IsAjax(inbound) ==> var out := Normalize(p, inbound, url, verb);
      "X-Requested-With" in out && out["X-Requested-With"] == ["XMLHttpRequest"]
  {
    SessionAjax(AgentHeaders(Base(p, inbound, url), inbound), inbound, verb);
    SessionReaches(p, inbound, url, verb, "X-Requested-With");
  }

  /** The connection headers: kept when sent, defaulted otherwise, Upgrade-Insecure-Requests only for GET. */
  lemma SessionDefaults(p: Proxy, inbound: Header, url: string, verb: string)
    ensures var out := Normalize(p, inbound, url, verb);
      && "Connection" in out
      && (Get(inbound, "Connection") != "" ==> out["Connection"] == inbound["Connection"])
      && (Get(inbound, "Connection") == "" ==> out["Connection"] == ["keep-alive"])
      && (Get(inbound, "Upgrade-Insecure-Requests") == "" && verb == "GET" ==>
            "Upgrade-Insecure-Requests" in out && out["Upgrade-Insecure-Requests"] == ["1"])
      && (Get(inbound, "Upgrade-Insecure-Requests") == "" && verb != "GET" ==>
            Get(out, "Upgrade-Insecure-Requests") == "")
      && (IsAjax(inbound) ==> "X-Requested-With" in out && out["X-Requested-With"] == ["XMLHttpRequest"])
  {
    ConnectionDefault(p, inbound, url, verb);
    UpgradeDefault(p, inbound, url, verb);
    AjaxMarked(p, inbound, url, verb);
  }

  // The identity stage, key by key.

  /** What the identity and language stages make of a browser header is what the hop carries. */
  lemma AgentReaches(p: Proxy, inbound: Header, url: string, verb: string, k: string)
    requires k in {"User-Agent", "Accept", "Accept-Language", "Accept-Encoding"}
    ensures var a, out := AgentHeaders(Base(p, inbound, url), inbound), Normalize(p, inbound, url, verb);
      (k in out <==> k in a) && (k in a ==> out[k] == a[k])
  {
    AgentKeyKept(k);
    SessionReaches(p, inbound, url, verb, k);
  }

  lemma AgentKeyKept(k: string)
    requires k in {"User-Agent", "Accept", "Accept-Language", "Accept-Encoding"}
    ensures k !in SessionKeys
  {
  }

  /** User-Agent: the browser's own when it sent one, else the proxy's default. */
  lemma UserAgentDefault(p: Proxy, inbound: Header, url: string, verb: string)
    ensures var out := Normalize(p, inbound, url, verb);
      && "User-Agent" in out
      && (Get(inbound, "User-Agent") != "" ==> out["User-Agent"] == inbound["User-Agent"])
      && (Get(inbound, "User-Agent") == "" ==> out["User-Agent"] == [DefaultUserAgent])
  {
    BasePlain(p, inbound, url, "User-Agent");
    AgentReaches(p, inbound, url, verb, "User-Agent");
  }

  /** Accept: the browser's own when it sent one, else the Ajax or the page default. */
  lemma AcceptDefault(p: Proxy, inbound: Header, url: string, verb: string)
    ensures var out := Normalize(p, inbound, url, verb);
      && "Accept" in out
      && (Get(inbound, "Accept") != "" ==> out["Accept"] == inbound["Accept"])
      && (Get(inbound, "Accept") == "" ==> out["Accept"] == [if IsAjax(inbound) then AjaxAccept else PageAccept])
  {
    BasePlain(p, inbound, url, "Accept");
    AgentReaches(p, inbound, url, verb, "Accept");
  }

  /** The language stage sees the language headers as the browser sent them. */
  lemma LanguageSees(p: Proxy, inbound: Header, url: string, k: string)
    requires k == "Accept-Language" || k == "Accept-Encoding"
    ensures var i := IdentityHeaders(Base(p, inbound, url), inbound);
      && Get(i, k) == Get(inbound, k)
      && (Get(inbound, k) != "" ==> k in i && i[k] == inbound[k])
  {
    BasePlain(p, inbound, url, k);
  }

  /** Accept-Language: the browser's own when it sent one, else the proxy's default. */
  lemma LanguageDefault(p: Proxy, inbound: Header, url: string, verb: string)
    ensures var out := Normalize(p, inbound, url, verb);
      && "Accept-Language" in out
      && (Get(inbound, "Accept-Language") != "" ==> out["Accept-Language"] == inbound["Accept-Language"])
      && (Get(inbound, "Accept-Language") == "" ==> out["Accept-Language"] == [DefaultLanguage])
  {
    LanguageSees(p, inbound, url, "Accept-Language");
    AgentReaches(p, inbound, url, verb, "Accept-Language");
  }

  /** Accept-Encoding: the browser's own when it sent one, else the proxy's default. */
  lemma EncodingDefault(p: Proxy, inbound: Header, url: string, verb: string)
    ensures var out := Normalize(p, inbound, url, verb);
      && "Accept-Encoding" in out
      && (Get(inbound, "Accept-Encoding") != "" ==> out["Accept-Encoding"] == inbound["Accept-Encoding"])
      && (Get(inbound, "Accept-Encoding") == "" ==> out["Accept-Encoding"] == [DefaultEncoding])
  {
    LanguageSees(p, inbound, url, "Accept-Encoding");
    AgentReaches(p, inbound, url, verb, "Accept-Encoding");
  }

  /** The browser identity headers: the browser's own when it sent them, else the proxy's defaults. */
  lemma AgentDefaults(p: Proxy, inbound: Header, url: string, verb: string)
    ensures var out := Normalize(p, inbound, url, verb);
      && "User-Agent" in out && "Accept" in out && "Accept-Language" in out && "Accept-Encoding" in out
      && (Get(inbound, "User-Agent") != "" ==> out["User-Agent"] == inbound["User-Agent"])
      && (Get(inbound, "User-Agent") == "" ==> out["User-Agent"] == [DefaultUserAgent])
      && (Get(inbound, "Accept") != "" ==> out["Accept"] == inbound["Accept"])
      && (Get(inbound, "Accept") == "" ==> out["Accept"] == [if IsAjax(inbound) then AjaxAccept else PageAccept])
      && (Get(inbound, "Accept-Language") != "" ==> out["Accept-Language"] == inbound["Accept-Language"])
      && (Get(inbound, "Accept-Language") == "" ==> out["Accept-Language"] == [DefaultLanguage])
      && (Get(inbound, "Accept-Encoding") != "" ==> out["Accept-Encoding"] == inbound["Accept-Encoding"])
      && (Get(inbound, "Accept-Encoding") == "" ==> out["Accept-Encoding"] == [DefaultEncoding])
  {
    UserAgentDefault(p, inbound, url, verb);
    AcceptDefault(p, inbound, url, verb);
    LanguageDefault(p, inbound, url, verb);
    EncodingDefault(p, inbound, url, verb);
  }

  /** The headers a browser cannot leave out. */
  lemma AlwaysPresent(p: Proxy, inbound: Header, url: string, verb: string)
    ensures var out := Normalize(p, inbound, url, verb);
      && Get(out, "User-Agent") != "" && Get(out, "Accept") != ""
      && Get(out, "Accept-Language") != "" && Get(out, "Accept-Encoding") != ""
      && Get(out, "Connection") != ""
  {
    IdentityPresent(p, inbound, url, verb);
    LanguagePresent(p, inbound, url, verb);
    ConnectionDefault(p, inbound, url, verb);
  }

  lemma IdentityPresent(p: Proxy, inbound: Header, url: string, verb: string)
    ensures var out := Normalize(p, inbound, url, verb);
      Get(out, "User-Agent") != "" && Get(out, "Accept") != ""
  {
    UserAgentDefault(p, inbound, url, verb);
    AcceptDefault(p, inbound, url, verb);
  }

  lemma LanguagePresent(p: Proxy, inbound: Header, url: string, verb: string)
    ensures var out := Normalize(p, inbound, url, verb);
      Get(out, "Accept-Language") != "" && Get(out, "Accept-Encoding") != ""
  {
    LanguageDefault(p, inbound, url, verb);
    EncodingDefault(p, inbound, url, verb);
  }

  /** Every cookie value sent to a JSP page is non-blank and has no surrounding white space. */
  lemma JspCookiesTrimmed(p: Proxy, inbound: Header, url: string, verb: string)
    requires Contains(Lower(url), ".jsp")
    ensures var out := Normalize(p, inbound, url, verb);
      "Cookie" in out ==> forall j :: 0 <= j < |out["Cookie"]| ==>
        out["Cookie"][j] != "" && TrimSpace(out["Cookie"][j]) == out["Cookie"][j]
  {
    assert Lower("Cookie") == "cookie";
    CopiesTheRest(p, inbound, url, verb, "Cookie");
  }

  /** `ReplaceAll` on a string that starts with its pattern. */
  lemma ReplaceAllLeading(p: string, rest: string, r: string)
    requires |p| > 0
    ensures ReplaceAll(p + rest, p, r) == r + ReplaceAll(rest, p, r)
  {
    assert (p + rest)[|p|..] == rest;
  }

  /**
   * A Referer naming a page of the proxy is sent as the same page of the
   * upstream site.
   */
  lemma RefererPointsUpstream(p: Proxy, inbound: Header, url: string, verb: string, page: string)
    requires |p.public| > 0 && !IsAuthUrl(url)
    requires Get(inbound, "Referer") == p.public + page && !Contains(page, p.public)
    ensures Normalize(p, inbound, url, verb)["Referer"] == [p.target + page]
  {
    ReplaceAllLeading(p.public, page, p.target);
    ReplaceAllAbsent(page, p.public, p.target);
  }

  /** An Origin that is absent or the proxy's own is always sent as the upstream origin. */
  lemma OriginPointsUpstream(p: Proxy, inbound: Header, url: string, verb: string)
    requires |p.public| > 0
    requires Get(inbound, "Origin") == "" || Get(inbound, "Origin") == p.public
    ensures Normalize(p, inbound, url, verb)["Origin"] == [p.target]
  {
    var o := Get(inbound, "Origin");
    if o != "" {
      ReplaceAllLeading(p.public, "", p.target);
      assert p.public + "" == p.public;
      assert ReplaceAll(o, p.public, p.target) == p.target;
    }
    assert OriginFor(p, inbound, url) == p.target;
  }
}
