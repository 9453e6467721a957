/**
 * The reply `ProxyHandler` writes once the upstream has answered. It
 * copies the upstream's headers, writing every `Set-Cookie` twice: once
 * rewritten for the proxy and once scoped to the school's domain. It gives
 * static files a year of caching, answers cross-origin requests, sets its
 * own `Content-Length` for a body it changed, and answers every redirect
 * with 200 so that the browser stays on the proxied page.
 *
 * The body itself comes from the earlier stages (`Rewrite`, `Inject`); here
 * only its length in bytes matters, and it is a parameter.
 */
module Reply {
  import opened Optional
  import opened Text
  import opened Http
  import opened Url
  import opened Cookies
  import opened Classifier

  // ---------------------------------------------------- Set-Cookie fan-out

  /** The proxy makes no copy for the school's domain: it runs locally, or its public URL does not parse. */
  predicate Alone(lib: UrlLib, public: string) {
    lib.parse(public).None? || IsLocal(Hostname(lib.parse(public).value.host))
  }

  /**
   * Each value followed by its copy: `first(v)`, then `second(v)` unless
   * that is empty.
   */
  function Spread(first: string -> string, second: string -> string, values: seq<string>): (r: seq<string>)
    ensures |values| <= |r| <= 2 * |values|
    decreases |values|
  {
    if |values| == 0 then []
    else
      var copy := second(values[0]);
      [first(values[0])] + ((if copy == "" then [] else [copy]) + Spread(first, second, values[1..]))
  }

  /** With no copies, `first` of each value, in order. */
  lemma {:induction false} SpreadAlone(first: string -> string, second: string -> string, values: seq<string>)
    requires forall v :: second(v) == ""
    ensures |Spread(first, second, values)| == |values|
    ensures forall i :: 0 <= i < |values| ==> Spread(first, second, values)[i] == first(values[i])
    decreases |values|
  {
    if |values| > 0 {
      SpreadAlone(first, second, values[1..]);
      assert Spread(first, second, values) == [first(values[0])] + Spread(first, second, values[1..]);
    }
  }

  /** With a copy of every value, `first` and `second` of each value, in order. */
  lemma {:induction false} SpreadPaired(first: string -> string, second: string -> string, values: seq<string>)
    requires forall v :: second(v) != ""
    ensures |Spread(first, second, values)| == 2 * |values|
    ensures forall i :: 0 <= i < |values| ==>
      Spread(first, second, values)[2 * i] == first(values[i]) && Spread(first, second, values)[2 * i + 1] == second(values[i])
    decreases |values|
  {
    if |values| > 0 {
      var v, rest := values[0], Spread(first, second, values[1..]);
      SpreadPaired(first, second, values[1..]);
      assert Spread(first, second, values) == [first(v), second(v)] + rest;
      forall i | 1 <= i < |values|
        ensures Spread(first, second, values)[2 * i] == first(values[i])
        ensures Spread(first, second, values)[2 * i + 1] == second(values[i])
      {
        assert values[i] == values[1..][i - 1];
        assert 2 * i == 2 * (i - 1) + 2;
      }
    }
  }

  /**
   * The `Set-Cookie` values sent for the upstream's `values`: each one
   * rewritten for the proxy, followed by its copy for `.utaipei.edu.tw`
   * when there is one.
   */
  function FanOut(lib: UrlLib, public: string, values: seq<string>): (r: seq<string>)
    ensures |values| <= |r| <= 2 * |values|
  {
    Spread(c => TransformSetCookie(lib, public, c), c => CreateUtaipeiCookie(lib, public, c), values)
  }

  /** A text that contains `p` is at least as long as `p`. */
  lemma ContainsLong(s: string, p: string)
    ensures Contains(s, p) ==> |p| <= |s|
  {
  }

  /** The copy for the school's domain is never empty, as written or as intended, so production always sends it. */
  lemma UtaipeiCookieNonEmpty(c: string)
    ensures UtaipeiCookieAsWritten(c) != "" && UtaipeiCookie(c) != ""
  {
    UtaipeiSameSite(c);
    ContainsLong(Lower(UtaipeiCookieAsWritten(c)), "samesite");
    UtaipeiSecure(c);
    ContainsLong(Lower(UtaipeiCookie(c)), "secure");
  }

  /** Without copies, one cookie is sent per upstream cookie, rewritten for the proxy, in order. */
  lemma FanOutAlone(lib: UrlLib, public: string, values: seq<string>)
    requires Alone(lib, public)
    ensures |FanOut(lib, public, values)| == |values|
    ensures forall i :: 0 <= i < |values| ==> FanOut(lib, public, values)[i] == TransformSetCookie(lib, public, values[i])
  {
    SpreadAlone(c => TransformSetCookie(lib, public, c), c => CreateUtaipeiCookie(lib, public, c), values);
  }

  /**
   * On a production host every upstream cookie is sent twice, in order:
   * rewritten for the proxy, then scoped to the school's domain.
   */
  lemma FanOutPaired(lib: UrlLib, public: string, values: seq<string>)
    requires !Alone(lib, public)
    ensures |FanOut(lib, public, values)| == 2 * |values|
    ensures forall i :: 0 <= i < |values| ==>
      && FanOut(lib, public, values)[2 * i] == TransformSetCookie(lib, public, values[i])
      && FanOut(lib, public, values)[2 * i + 1] == UtaipeiCookieAsWritten(values[i])
  {
    forall c ensures CreateUtaipeiCookie(lib, public, c) != "" {
      UtaipeiCookieNonEmpty(c);
    }
    SpreadPaired(c => TransformSetCookie(lib, public, c), c => CreateUtaipeiCookie(lib, public, c), values);
  }

  /** The fan-out with both cookie functions as intended. */
  function FanOutFixed(lib: UrlLib, public: string, values: seq<string>): (r: seq<string>)
    ensures |values| <= |r| <= 2 * |values|
  {
    Spread(c => TransformSetCookieFixed(lib, public, c), c => CreateUtaipeiCookieFixed(lib, public, c), values)
  }

  /** The intended fan-out on a production host: each cookie, then its copy, which says `secure`. */
  lemma FanOutPairedFixed(lib: UrlLib, public: string, values: seq<string>)
    requires !Alone(lib, public)
    ensures |FanOutFixed(lib, public, values)| == 2 * |values|
    ensures forall i :: 0 <= i < |values| ==>
      && FanOutFixed(lib, public, values)[2 * i] == TransformSetCookieFixed(lib, public, values[i])
      && FanOutFixed(lib, public, values)[2 * i + 1] == UtaipeiCookie(values[i])
      && Mentions(FanOutFixed(lib, public, values)[2 * i + 1], "secure")
  {
    forall c ensures CreateUtaipeiCookieFixed(lib, public, c) != "" && Mentions(UtaipeiCookie(c), "secure") {
      UtaipeiCookieNonEmpty(c);
      UtaipeiSecure(c);
    }
    SpreadPaired(c => TransformSetCookieFixed(lib, public, c), c => CreateUtaipeiCookieFixed(lib, public, c), values);
  }

  // ----------------------------------------------------------- header copy

  /**
   * What the copy loop adds for upstream header `key`: nothing for a
   * `Content-Length` when the handler writes its own (`own`), the fan-out
   * for `Set-Cookie`, and the values themselves otherwise.
   */
  function Copies(lib: UrlLib, public: string, key: string, values: seq<string>, own: bool, fixed: bool): seq<string> {
    if own && Lower(key) == "content-length" then []
    else if Lower(key) == "set-cookie" then (if fixed then FanOutFixed(lib, public, values) else FanOut(lib, public, values))
    else values
  }

  /** The copy loop's additions, key by key. */
  function Additions(lib: UrlLib, public: string, up: Header, own: bool, fixed: bool): Header {
    map k | k in up :: Copies(lib, public, k, up[k], own, fixed)
  }

  /** No key is listed twice. */
  predicate Distinct(order: seq<string>) {
    forall i, j :: 0 <= i < j < |order| ==> order[i] != order[j]
  }

  /** `order` lists the keys of `h`, each once: the order in which Go's `range` visits them. */
  ghost predicate Listing(order: seq<string>, h: Header) {
    (forall k :: k in h <==> k in order) && Distinct(order)
  }

  /**
   * The copy loop: `Header.Add` of each listed key's additions, in the
   * order listed. Whatever the order, each key ends with its values in
   * `out` followed by its additions, and has an entry exactly when one of
   * the two is non-empty or it had one already.
   */
  function AddEach(out: Header, adds: Header, order: seq<string>): (r: Header)
    requires forall k :: k in order ==> k in adds
    requires Distinct(order)
    ensures forall k :: k in r <==> k in out || (k in order && |adds[k]| > 0)
    ensures forall k :: k in r ==> r[k] == (if k in out then out[k] else []) + (if k in order then adds[k] else [])
    decreases |order|
  {
    if |order| == 0 then out
    else
      var key := order[0];
      assert forall k :: k in order[1..] ==> k != key by {
        forall k | k in order[1..] ensures k != key {
          var j :| 0 <= j < |order[1..]| && order[1..][j] == k;
          assert order[j + 1] == k;
        }
      }
      assert forall k :: k in order <==> k == key || k in order[1..];
      AddEach(AddAll(out, key, adds[key]), adds, order[1..])
  }

  /** The header after the copy loop, for one key. */
  lemma CopiedKey(lib: UrlLib, public: string, pre: Header, up: Header, own: bool, fixed: bool, order: seq<string>, k: string)
    requires Listing(order, up)
    ensures var r := AddEach(pre, Additions(lib, public, up, own, fixed), order);
      && (k in r <==> k in pre || (k in up && |Copies(lib, public, k, up[k], own, fixed)| > 0))
      && (k in r ==> r[k] == (if k in pre then pre[k] else []) + (if k in up then Copies(lib, public, k, up[k], own, fixed) else []))
  {
  }

  // ------------------------------------------------------- after the copy

  /** Every key outside `keys` keeps its entry (or its absence). */
  ghost predicate Untouched(h: Header, r: Header, keys: set<string>) {
    forall k :: k !in keys ==> (k in r <==> k in h) && (k in h ==> r[k] == h[k])
  }

  const YearLong := "public, max-age=31536000"

  /** The headers a static file's reply rewrites. */
  const StaticKeys: set<string> := {"Content-Type", "Cache-Control", "Pragma", "Expires"}

  /** The Content-Type a font path names (main.go:777-788), over `h`. */
  function TypedByPath(h: Header, lowerPath: string): (r: Header)
    ensures Untouched(h, r, {"Content-Type"})
  {
    if HasSuffix(lowerPath, ".ttf") then Set(h, "Content-Type", "font/ttf")
    else if HasSuffix(lowerPath, ".woff") then Set(h, "Content-Type", "font/woff")
    else if HasSuffix(lowerPath, ".woff2") then Set(h, "Content-Type", "font/woff2")
    else if HasSuffix(lowerPath, ".eot") then Set(h, "Content-Type", "application/vnd.ms-fontobject")
    else if HasSuffix(lowerPath, ".otf") then Set(h, "Content-Type", "font/otf")
    else h
  }

  /**
   * A binary answer's header: the font type its path names, or the type
   * sniffing found when that differs from the upstream's, and a year of
   * caching in place of any cache headers.
   */
  function Static(h: Header, lowerPath: string, sniffed: string, upstreamType: string): (r: Header)
    ensures "Cache-Control" in r && r["Cache-Control"] == [YearLong]
    ensures "Pragma" !in r && "Expires" !in r
    ensures sniffed != upstreamType ==> "Content-Type" in r && r["Content-Type"] == [sniffed]
    ensures Untouched(h, r, StaticKeys)
  {
    var typed := TypedByPath(h, lowerPath);
    var fixed := if sniffed != upstreamType then Set(typed, "Content-Type", sniffed) else typed;
    Set(Del(Del(Del(fixed, "Cache-Control"), "Pragma"), "Expires"), "Cache-Control", YearLong)
  }

  const AllowMethods := "GET, POST, PUT, DELETE, OPTIONS, PATCH"
  const AllowHeaders := "Content-Type, Authorization, X-Requested-With, Accept, Origin, Cache-Control, Pragma, Cookie, Referer"
  const ExposeHeaders := "Content-Length, Content-Type, Set-Cookie, Location"

  /** The headers a cross-origin reply sets. */
  const CorsKeys: set<string> := {
    "Access-Control-Allow-Origin", "Access-Control-Allow-Credentials", "Access-Control-Allow-Methods",
    "Access-Control-Allow-Headers", "Access-Control-Expose-Headers", "Access-Control-Max-Age"
  }

  /** A reply to a cross-origin request from `origin`: that origin may read it, with credentials. */
  function Cors(h: Header, origin: string): (r: Header)
    ensures "Access-Control-Allow-Origin" in r && r["Access-Control-Allow-Origin"] == [origin]
    ensures "Access-Control-Allow-Credentials" in r && r["Access-Control-Allow-Credentials"] == ["true"]
    ensures Untouched(h, r, CorsKeys)
  {
    var h1 := Set(h, "Access-Control-Allow-Origin", origin);
    var h2 := Set(h1, "Access-Control-Allow-Credentials", "true");
    var h3 := Set(h2, "Access-Control-Allow-Methods", AllowMethods);
    var h4 := Set(h3, "Access-Control-Allow-Headers", AllowHeaders);
    var h5 := Set(h4, "Access-Control-Expose-Headers", ExposeHeaders);
    Set(h5, "Access-Control-Max-Age", "86400")
  }

  /** The status the browser sees: a redirect is answered with 200 OK, any other status as it is. */
  function FinalStatus(status: int): (r: int)
    ensures !IsRedirect(r)
    ensures IsRedirect(status) ==> r == 200
    ensures !IsRedirect(status) ==> r == status
  {
    if IsRedirect(status) then 200 else status
  }

  /** Deciding the status twice decides nothing new. */
  lemma FinalStatusIdempotent(status: int)
    ensures FinalStatus(FinalStatus(status)) == FinalStatus(status)
  {
  }

  // ------------------------------------------------------------- the reply

  /**
   * The request facts the reply depends on: its method, its path and its
   * `Origin` header. `verb` is the method as the hop loop leaves it (the
   * `verb` `Redirects.DoProxyRequest` returns), not the browser's: a followed
   * redirect other than 307 or 308 turns it into GET, so a preflight the
   * upstream redirects that way is not answered as a preflight.
   */
  datatype Inbound = Inbound(verb: string, path: string, origin: string)

  /** The reply's status and header. */
  datatype Written = Written(status: int, header: Header)

  /** The upstream answer's classification. */
  function VerdictOf(inb: Inbound, up: Response): Verdict {
    Classify(Get(up.header, "Content-Type"), inb.path, up.body)
  }

  /** The length the handler writes before the copy loop, for rewritten text (main.go:687-693). */
  function Preset(v: Verdict, textLength: nat): Header {
    if v.rewrite then map["Content-Length" := [Decimal(textLength)]] else map[]
  }

  /**
   * The header straight after the copy loop, where `own` says when it
   * leaves the upstream's `Content-Length` out and `fixed` whether the
   * cookies are rewritten as intended.
   */
  function Copied(lib: UrlLib, public: string, inb: Inbound, up: Response, textLength: nat,
                  order: seq<string>, own: bool, fixed: bool): Header
    requires Listing(order, up.header)
  {
    AddEach(Preset(VerdictOf(inb, up), textLength), Additions(lib, public, up.header, own, fixed), order)
  }

  /** The copied header once static caching and CORS have run. */
  function Dressed(copied: Header, inb: Inbound, v: Verdict, upstreamType: string): Header {
    var fixed := if v.binary then Static(copied, Lower(inb.path), v.contentType, upstreamType) else copied;
    if inb.origin != "" && !v.binary then Cors(fixed, inb.origin) else fixed
  }

  /**
   * The reply from the dressed header. A preflight `OPTIONS` request is
   * answered 200 as soon as CORS is set; otherwise a page gets its own
   * length and the status is decided, and a 200 reply loses its `Location`.
   */
  function Finish(h: Header, inb: Inbound, v: Verdict, upstreamStatus: int, pageLength: nat): Written {
    if inb.verb == "OPTIONS" then Written(200, h)
    else
      var sized := if v.inject then Set(h, "Content-Length", Decimal(pageLength)) else h;
      var status := FinalStatus(upstreamStatus);
      Written(status, if status == 200 then Del(sized, "Location") else sized)
  }

  /** The reply, with `own` and `fixed` as for `Copied`. */
  function Assemble(lib: UrlLib, public: string, inb: Inbound, up: Response, textLength: nat, pageLength: nat,
                    order: seq<string>, own: bool, fixed: bool): Written
    requires Listing(order, up.header)
  {
    var v := VerdictOf(inb, up);
    Finish(Dressed(Copied(lib, public, inb, up, textLength, order, own, fixed), inb, v, Get(up.header, "Content-Type")),
           inb, v, up.status, pageLength)
  }

  /**
   * `ProxyHandler`'s reply to `inb` for the upstream's final answer `up`,
   * as written: the copy loop leaves `Content-Length` out only for a page
   * it injected into. `textLength` is the body's length after URL
   * rewriting and `pageLength` its length as sent.
   */
  function Respond(lib: UrlLib, public: string, inb: Inbound, up: Response, textLength: nat, pageLength: nat,
                   order: seq<string>): Written
    requires Listing(order, up.header)
  {
    Assemble(lib, public, inb, up, textLength, pageLength, order, VerdictOf(inb, up).inject, false)
  }

  /** The reply with the upstream's `Content-Length` left out whenever the handler writes its own. */
  function RespondFixed(lib: UrlLib, public: string, inb: Inbound, up: Response, textLength: nat, pageLength: nat,
                        order: seq<string>): Written
    requires Listing(order, up.header)
  {
    var v := VerdictOf(inb, up);
    Assemble(lib, public, inb, up, textLength, pageLength, order, v.inject || v.rewrite, true)
  }

  // ------------------------------------------------------------ properties

  /** The header names whose lower case the copy loop looks for. */
  lemma KeyNames()
    ensures Lower("Set-Cookie") == "set-cookie" && Lower("Content-Length") == "content-length"
  {
    assert Lower("Set-Cookie") == "set-cookie";
    assert Lower("Content-Length") == "content-length";
  }

  /** The headers the copy loop and the status decide are neither cached nor CORS headers. */
  lemma Unmanaged()
    ensures "Content-Length" !in StaticKeys && "Content-Length" !in CorsKeys
    ensures "Location" !in StaticKeys && "Location" !in CorsKeys
    ensures "Set-Cookie" !in StaticKeys && "Set-Cookie" !in CorsKeys
  {
  }

  /** `Location` is neither of the names the copy loop looks for. */
  lemma LocationName()
    ensures Lower("Location") != "set-cookie" && Lower("Location") != "content-length"
  {
    assert |Lower("Location")| == 8;
  }

  /** Caching, CORS and the status leave a header they do not name as the copy loop left it. */
  lemma Passes(copied: Header, inb: Inbound, v: Verdict, upstreamType: string, upstreamStatus: int,
               pageLength: nat, k: string)
    requires k !in StaticKeys && k !in CorsKeys
    requires k == "Content-Length" ==> !v.inject
    requires k == "Location" ==> inb.verb == "OPTIONS" || FinalStatus(upstreamStatus) != 200
    ensures var r := Finish(Dressed(copied, inb, v, upstreamType), inb, v, upstreamStatus, pageLength).header;
      (k in r <==> k in copied) && (k in copied ==> r[k] == copied[k])
  {
  }

  /**
   * Every `Set-Cookie` of the upstream's reaches the browser as the
   * fan-out says: rewritten for the proxy, each followed by its copy for
   * the school's domain when the proxy runs in production.
   */
  lemma CookiesFannedOut(lib: UrlLib, public: string, inb: Inbound, up: Response, textLength: nat, pageLength: nat,
                         order: seq<string>)
    requires Listing(order, up.header)
    ensures var r := Respond(lib, public, inb, up, textLength, pageLength, order).header;
      && ("Set-Cookie" in r <==> "Set-Cookie" in up.header && |up.header["Set-Cookie"]| > 0)
      && ("Set-Cookie" in r ==> r["Set-Cookie"] == FanOut(lib, public, up.header["Set-Cookie"]))
  {
    var v := VerdictOf(inb, up);
    KeyNames();
    CopiedKey(lib, public, Preset(v, textLength), up.header, v.inject, false, order, "Set-Cookie");
    Unmanaged();
    Passes(Copied(lib, public, inb, up, textLength, order, v.inject, false), inb, v, Get(up.header, "Content-Type"),
           up.status, pageLength, "Set-Cookie");
  }

  /** With the cookie functions as intended, the reply's `Set-Cookie` is the intended fan-out. */
  lemma CookiesFannedOutFixed(lib: UrlLib, public: string, inb: Inbound, up: Response, textLength: nat, pageLength: nat,
                              order: seq<string>)
    requires Listing(order, up.header)
    ensures var r := RespondFixed(lib, public, inb, up, textLength, pageLength, order).header;
      && ("Set-Cookie" in r <==> "Set-Cookie" in up.header && |up.header["Set-Cookie"]| > 0)
      && ("Set-Cookie" in r ==> r["Set-Cookie"] == FanOutFixed(lib, public, up.header["Set-Cookie"]))
  {
    var v := VerdictOf(inb, up);
    KeyNames();
    CopiedKey(lib, public, Preset(v, textLength), up.header, v.inject || v.rewrite, true, order, "Set-Cookie");
    Unmanaged();
    Passes(Copied(lib, public, inb, up, textLength, order, v.inject || v.rewrite, true), inb, v, Get(up.header, "Content-Type"),
           up.status, pageLength, "Set-Cookie");
  }

  /**
   * The browser never sees a redirect: a preflight and a redirect are
   * answered 200, any other status as the upstream gave it, and a 200
   * answer to anything but a preflight carries no `Location`.
   */
  lemma StatusPolicy(lib: UrlLib, public: string, inb: Inbound, up: Response, textLength: nat, pageLength: nat,
                     order: seq<string>)
    requires Listing(order, up.header)
    ensures var r := Respond(lib, public, inb, up, textLength, pageLength, order);
      && !IsRedirect(r.status)
      && r.status == (if inb.verb == "OPTIONS" || IsRedirect(up.status) then 200 else up.status)
      && (inb.verb != "OPTIONS" && r.status == 200 ==> "Location" !in r.header)
  {
  }

  /** Otherwise the upstream's `Location` reaches the browser as it was sent. */
  lemma LocationKept(lib: UrlLib, public: string, inb: Inbound, up: Response, textLength: nat, pageLength: nat,
                     order: seq<string>)
    requires Listing(order, up.header)
    requires inb.verb == "OPTIONS" || FinalStatus(up.status) != 200
    ensures var r := Respond(lib, public, inb, up, textLength, pageLength, order).header;
      && ("Location" in r <==> "Location" in up.header && |up.header["Location"]| > 0)
      && ("Location" in r ==> r["Location"] == up.header["Location"])
  {
    var v := VerdictOf(inb, up);
    LocationName();
    CopiedKey(lib, public, Preset(v, textLength), up.header, v.inject, false, order, "Location");
    Unmanaged();
    Passes(Copied(lib, public, inb, up, textLength, order, v.inject, false), inb, v, Get(up.header, "Content-Type"),
           up.status, pageLength, "Location");
  }

  /**
   * A header the proxy does not manage reaches the browser as the
   * upstream sent it, and only when the upstream sent it with a value.
   */
  lemma OthersPassed(lib: UrlLib, public: string, inb: Inbound, up: Response, textLength: nat, pageLength: nat,
                     order: seq<string>, k: string)
    requires Listing(order, up.header)
    requires k != "Location" && k !in StaticKeys && k !in CorsKeys
    requires Lower(k) != "set-cookie" && Lower(k) != "content-length"
    ensures var r := Respond(lib, public, inb, up, textLength, pageLength, order).header;
      && (k in r <==> k in up.header && |up.header[k]| > 0)
      && (k in r ==> r[k] == up.header[k])
  {
    var v := VerdictOf(inb, up);
    KeyNames();
    CopiedKey(lib, public, Preset(v, textLength), up.header, v.inject, false, order, k);
    Unmanaged();
    Passes(Copied(lib, public, inb, up, textLength, order, v.inject, false), inb, v, Get(up.header, "Content-Type"),
           up.status, pageLength, k);
  }

  /**
   * A static file is cached for a year, with no `Pragma` or `Expires`
   * left, and carries the sniffed type when sniffing corrected the
   * upstream's.
   */
  lemma StaticCached(lib: UrlLib, public: string, inb: Inbound, up: Response, textLength: nat, pageLength: nat,
                     order: seq<string>)
    requires Listing(order, up.header)
    ensures var v, r := VerdictOf(inb, up), Respond(lib, public, inb, up, textLength, pageLength, order).header;
      v.binary ==>
        && "Cache-Control" in r && r["Cache-Control"] == [YearLong]
        && "Pragma" !in r && "Expires" !in r
        && (v.contentType != Get(up.header, "Content-Type") ==> "Content-Type" in r && r["Content-Type"] == [v.contentType])
  {
  }

  /** The dressed header answers a cross-origin request for anything but a static file. */
  lemma CorsFinished(copied: Header, inb: Inbound, v: Verdict, upstreamType: string, upstreamStatus: int,
                     pageLength: nat)
    requires inb.origin != "" && !v.binary
    ensures var r := Finish(Dressed(copied, inb, v, upstreamType), inb, v, upstreamStatus, pageLength).header;
      && "Access-Control-Allow-Origin" in r && r["Access-Control-Allow-Origin"] == [inb.origin]
      && "Access-Control-Allow-Credentials" in r && r["Access-Control-Allow-Credentials"] == ["true"]
  {
  }

  /** A cross-origin request for anything but a static file may read the reply with credentials. */
  lemma CorsAnswered(lib: UrlLib, public: string, inb: Inbound, up: Response, textLength: nat, pageLength: nat,
                     order: seq<string>)
    requires Listing(order, up.header)
    ensures var v, r := VerdictOf(inb, up), Respond(lib, public, inb, up, textLength, pageLength, order).header;
      inb.origin != "" && !v.binary ==>
        && "Access-Control-Allow-Origin" in r && r["Access-Control-Allow-Origin"] == [inb.origin]
        && "Access-Control-Allow-Credentials" in r && r["Access-Control-Allow-Credentials"] == ["true"]
  {
    var v := VerdictOf(inb, up);
    if inb.origin != "" && !v.binary {
      CorsFinished(Copied(lib, public, inb, up, textLength, order, v.inject, false), inb, v, Get(up.header, "Content-Type"),
                   up.status, pageLength);
    }
  }

  /** A `Content-Length` value read as a number, when it is one. */
  function ReadLength(s: string): (r: Option<nat>)
    ensures r.Some? <==> |s| > 0 && forall i :: 0 <= i < |s| ==> '0' <= s[i] <= '9'
  {
    if |s| > 0 && forall i :: 0 <= i < |s| ==> '0' <= s[i] <= '9' then Some(DigitsValue(s)) else None
  }

  /** The lengths a header's `Content-Length` values announce. */
  function Announced(h: Header): (r: seq<Option<nat>>)
    ensures |r| == if "Content-Length" in h then |h["Content-Length"]| else 0
    ensures forall i :: 0 <= i < |r| ==> r[i] == ReadLength(h["Content-Length"][i])
  {
    if "Content-Length" in h then
      var values := h["Content-Length"];
      seq(|values|, i requires 0 <= i < |values| => ReadLength(values[i]))
    else []
  }

  /** A header whose only length is `n` printed announces `n` alone. */
  lemma {:induction false} AnnouncedOne(h: Header, n: nat)
    requires "Content-Length" in h && h["Content-Length"] == [Decimal(n)]
    ensures Announced(h) == [Some(n)]
  {
    DecimalRoundTrip(n);
    assert Announced(h)[0] == ReadLength(Decimal(n));
  }

  /** The status stage gives a page it injected into its length as sent. */
  lemma PageFinished(copied: Header, inb: Inbound, v: Verdict, upstreamType: string, upstreamStatus: int,
                     pageLength: nat)
    requires v.inject && inb.verb != "OPTIONS"
    ensures var r := Finish(Dressed(copied, inb, v, upstreamType), inb, v, upstreamStatus, pageLength).header;
      "Content-Length" in r && r["Content-Length"] == [Decimal(pageLength)]
  {
  }

  /** A page injected into announces one length, the length sent. */
  lemma PageLength(lib: UrlLib, public: string, inb: Inbound, up: Response, textLength: nat, pageLength: nat,
                   order: seq<string>)
    requires Listing(order, up.header)
    requires VerdictOf(inb, up).inject && inb.verb != "OPTIONS"
    ensures Announced(Respond(lib, public, inb, up, textLength, pageLength, order).header) == [Some(pageLength)]
  {
    var v := VerdictOf(inb, up);
    PageFinished(Copied(lib, public, inb, up, textLength, order, v.inject, false), inb, v, Get(up.header, "Content-Type"),
                 up.status, pageLength);
    AnnouncedOne(Respond(lib, public, inb, up, textLength, pageLength, order).header, pageLength);
  }

  /**
   * As written, rewritten JavaScript, CSS or JSON carries its new length
   * followed by every length the upstream sent, so an upstream
   * `Content-Length` leaves the reply announcing two.
   */
  lemma StaleLength(lib: UrlLib, public: string, inb: Inbound, up: Response, textLength: nat, pageLength: nat,
                    order: seq<string>)
    requires Listing(order, up.header)
    requires VerdictOf(inb, up).rewrite && !VerdictOf(inb, up).inject
    requires "Content-Length" in up.header
    ensures var r := Respond(lib, public, inb, up, textLength, pageLength, order).header;
      && "Content-Length" in r && r["Content-Length"] == [Decimal(textLength)] + up.header["Content-Length"]
      && |Announced(r)| == 1 + |up.header["Content-Length"]|
  {
    var v := VerdictOf(inb, up);
    KeyNames();
    CopiedKey(lib, public, Preset(v, textLength), up.header, v.inject, false, order, "Content-Length");
    Unmanaged();
    Passes(Copied(lib, public, inb, up, textLength, order, v.inject, false), inb, v, Get(up.header, "Content-Type"),
           up.status, pageLength, "Content-Length");
  }

  /** With the upstream's length left out, rewritten text announces exactly its new length. */
  lemma OneLength(lib: UrlLib, public: string, inb: Inbound, up: Response, textLength: nat, pageLength: nat,
                  order: seq<string>)
    requires Listing(order, up.header)
    requires VerdictOf(inb, up).rewrite && !VerdictOf(inb, up).inject
    ensures Announced(RespondFixed(lib, public, inb, up, textLength, pageLength, order).header) == [Some(textLength)]
  {
    var v := VerdictOf(inb, up);
    KeyNames();
    CopiedKey(lib, public, Preset(v, textLength), up.header, true, true, order, "Content-Length");
    Unmanaged();
    Passes(Copied(lib, public, inb, up, textLength, order, true, true), inb, v, Get(up.header, "Content-Type"),
           up.status, pageLength, "Content-Length");
    AnnouncedOne(RespondFixed(lib, public, inb, up, textLength, pageLength, order).header, textLength);
  }
}
