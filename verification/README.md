# utaipei-proxy: the relay and rewrite engine, in Dafny

This project models the core of a Go reverse proxy that puts the
University of Taipei's course portal (`my.utaipei.edu.tw`) and its
course-selection host (`shcourse.utaipei.edu.tw`) behind one public
address, and proves properties of that model. The proxy has five parts:

- **The forwarding loop** (`doProxyRequest`). It turns one browser
  request into up to 100 hops to the upstream. Each hop carries a header
  block made to look as if it came from the school's own pages. The loop
  follows every 3xx answer that has a `Location`, and keeps the method
  and body only for 307 and 308.
- **The classifier** (the `shouldInject` block of `ProxyHandler`). It
  decides from the Content-Type, the path and the first body bytes
  whether an answer is binary, rewritable JavaScript/CSS/JSON, or an HTML
  page to inject into. It sniffs fonts served with the wrong type.
- **The body rewriter.**
  - `replaceTargetURLs` points the upstream's absolute links at the
    proxy.
  - `optimizeHTML` strips context-menu blockers. It adds a viewport tag,
    places a payload of no-cache meta tags, styles and scripts, and
    labels table cells through `addTableDataLabels`.
- **The cookie translator.**
  - `transformSetCookie` rewrites each `Set-Cookie` for the proxy's own
    host.
  - `createUtaipeiCookie` makes a second copy scoped to
    `.utaipei.edu.tw`.
- **The reply.** It copies the upstream headers and fans out the
  cookies. Static files get a year of caching, and cross-origin requests
  get CORS headers. The page gets its own `Content-Length`. Every
  redirect is answered 200 with its `Location` removed.

`extractCode`, the helper that pulls the course code out of an
`of_display('…')` call, is modelled too.

Strings are sequences of runes. Go's `strings` functions are defined in
module `Text`, with reference definitions. The fragment of RE2 that the
proxy's patterns use is in `Pattern`, with Go's leftmost-first
semantics. `ReplaceAllString` templates are in `Template`. `net/url`
parsing, resolution and formatting enter as the functions of a
`Url.UrlLib` value. The upstream (client, transport, cookie jar) is an
oracle from the hop number and the outbound request to a reply.

Points of the code worth knowing, which the model follows:

- A 3xx answer is always sent to the browser as 200, and the `Location`
  header is removed from every 200 reply (main.go:825-837).
- The hop loop stops after 100 redirects (main.go:126).
- A local HTTPS proxy gives a non-login cookie `SameSite=None` without
  `Secure`, as main.go:910-911 write it.
- A rewritten JavaScript, CSS or JSON reply keeps the upstream's
  `Content-Length` next to the proxy's own. See the last row of "## Findings".

## Model

| member | source | states |
|---|---|---|
| Redirects.Prepare | main.go:152-205 | a hop's request is built exactly when the (possibly defaulted) method is a token and the URL parses; it replays the cursor's body and its `Host` is the URL's host |
| Redirects.Chase | main.go:148-388 | a run from hop `i` makes at most `MaxRedirects - i` hops |
| Redirects.ChaseLinked | main.go:148-383 | each hop of a run but the last moved on to the next hop's cursor |
| Redirects.ChaseEnd | main.go:148-391 | a run starts at its cursor; its last hop either stopped with the run's outcome, or moved on with no hop left, which is `TooManyRedirects` |
| Redirects.DoProxyRequest | main.go:125-392 | an unreadable inbound body fails the request; otherwise the outcome and the method the request ends with are those of the hop loop started at target + path + query |
| Redirects.ChaseTurn | main.go:335-387 | a hop that stops ends the run with its outcome; one that moves on hands the run to the next hop |
| Redirects.HopOnReply | main.go:320-336 | a hop whose request was built is decided on the upstream's reply to that request |
| Redirects.HopUnprepared | main.go:157-161 | a hop whose request cannot be built fails the run with `RequestInvalid` |
| Redirects.Turn | main.go:148-387 | one pass of the loop body computes the same decision as the hop function |
| Redirects.Relay | main.go:148-391 | the imperative loop returns the outcome and final method of the recursive run |
| Redirects.FollowRule | main.go:336-382 | a hop moves on only after a 3xx answer with a non-empty `Location`, to the resolved URL (bent back from localhost), keeping method and body for 307/308 and turning into a body-less GET otherwise; an unresolvable `Location` repeats the same cursor |
| Redirects.StopRule | main.go:336-387 | a hop delivers a response exactly when the upstream answered it and the answer is not a 3xx or has no `Location` |
| Redirects.HopNeverExhausts | main.go:148-388 | running out of hops is never the decision of a single hop |
| Redirects.TrailLinked | main.go:148-383 | hop `j` of a whole run moved on to hop `j + 1` |
| Redirects.TrailEnd | main.go:148-391 | how the last hop of a whole run ended it |
| Redirects.RunEnd | main.go:148-391 | `ChaseEnd` for a whole run from hop 0 |
| Redirects.AtMostMaxHops | main.go:126-148 | the proxy never makes more than 100 hops |
| Redirects.ExhaustedHopMovedOn | main.go:148-391 | every hop of a run that ran out of hops moved on |
| Redirects.ExhaustionOnlyAfterRedirects | main.go:388-391 | `TooManyRedirects` happens only after exactly 100 hops each answered by a followed 3xx with a `Location` |
| Redirects.DeliveredIsFinalAnswer | main.go:385-387 | a delivered response is the upstream's answer to the last hop, and it is not a redirect the proxy could follow |
| Redirects.RedirectWithoutLocationDelivered | main.go:337-342 | a 3xx answer without `Location` is delivered as it is |
| Redirects.ConsecutiveHops | main.go:346-382 | between consecutive hops of a run the cursor moves as `FollowRule` says |
| Redirects.LocalhostRedirectFixed | main.go:363-370 | a redirect to a localhost URL goes to the same URL with the host being visited |
| Redirects.RedirectOffLocalhost | main.go:363-370 | when formatting and parsing round-trip, a redirect from a host other than localhost does not lead to localhost |
| Redirects.FollowOffLocalhost | main.go:363-370 | a hop from a host other than localhost does not move on to localhost |
| Redirects.NextOffLocalhost | main.go:363-370 | hop `j` of a run, away from localhost, does not send hop `j + 1` there |
| Redirects.HopsStayOffLocalhost | main.go:363-370 | when the first hop avoids localhost, no hop of the run goes there |
| Redirects.GetStaysGet | main.go:375-380 | once a run has become a body-less GET it stays one |
| RequestHeaders.CleanCookies | main.go:177-194 | cookie values sent to a `.jsp` URL are trimmed and the blank ones dropped |
| RequestHeaders.IdentityHeaders | main.go:236-255 | User-Agent and Accept are kept when set, else defaulted (the browser's User-Agent or the proxy's; the Ajax or the page Accept); Referer and the language and connection headers are untouched |
| RequestHeaders.LanguageHeaders | main.go:257-265 | Accept-Language and Accept-Encoding are kept when set, else given the proxy's defaults; Referer, the identity and the connection headers are untouched |
| RequestHeaders.SessionHeaders | main.go:267-284 | `Cache-Control` and `Pragma` are always `no-cache`, Referer is kept, and no header outside the no-cache pair, Connection, Upgrade-Insecure-Requests and X-Requested-With changes |
| RequestHeaders.BrowserHeaders | main.go:234-284 | after all the defaults, `Cache-Control` and `Pragma` are `no-cache` and the Referer is the one the hop was given |
| RequestHeaders.Normalize | main.go:163-309 | every hop carries `Cache-Control: no-cache`, `Pragma: no-cache`, and exactly one Referer and one Origin, the ones the rewrite rules give |
| RequestHeaders.BrowserHeadersElsewhere | main.go:234-284 | the defaults leave every header they do not manage as it was |
| RequestHeaders.CopiesTheRest | main.go:163-202 | a header the proxy does not manage reaches the hop as the copy loop forwards it: Host never, a cookie cleaned for a JSP page, anything else verbatim |
| RequestHeaders.NoHostHeader | main.go:166-169 | the hop's header map never carries a Host entry |
| RequestHeaders.AuthUrlLooksInternal | main.go:226-232 | a hop to a URL naming `uaa`, `auth` or `login` always claims the school's index page as its Referer |
| RequestHeaders.PlainKeys | main.go:199-201 | the header names the copy loop passes through untouched |
| RequestHeaders.BasePlain | main.go:214-224 | a managed header other than Referer reaches the defaults stage as the browser sent it |
| RequestHeaders.ConnectionDefault | main.go:271-274 | Connection is the browser's own when sent, `keep-alive` otherwise |
| RequestHeaders.UpgradeDefault | main.go:276-279 | Upgrade-Insecure-Requests is `1` for a GET that did not send it and absent for any other method that did not |
| RequestHeaders.AjaxMarked | main.go:281-284 | an XMLHttpRequest keeps its `X-Requested-With` marker |
| RequestHeaders.SessionDefaults | main.go:267-284 | the connection headers: kept when sent, defaulted otherwise |
| RequestHeaders.UserAgentDefault | main.go:236-244 | User-Agent is the browser's own when sent, the proxy's Chrome string otherwise |
| RequestHeaders.AcceptDefault | main.go:246-255 | Accept is the browser's own when sent, else the Ajax or the page default |
| RequestHeaders.LanguageDefault | main.go:257-260 | Accept-Language is the browser's own when sent, `zh-TW,zh;q=0.9,en;q=0.8` otherwise |
| RequestHeaders.EncodingDefault | main.go:262-265 | Accept-Encoding is the browser's own when sent, `gzip, deflate` otherwise |
| RequestHeaders.AgentDefaults | main.go:236-265 | the four identity headers together: the browser's own, or the defaults |
| RequestHeaders.AlwaysPresent | main.go:234-269 | every hop carries User-Agent, Accept, Accept-Language, Accept-Encoding and Connection |
| RequestHeaders.JspCookiesTrimmed | main.go:177-191 | every cookie value sent to a JSP page is non-blank and has no surrounding white space |
| RequestHeaders.RefererPointsUpstream | main.go:216-220 | a Referer naming a page of the proxy is sent as the same page of the upstream site |
| RequestHeaders.OriginPointsUpstream | main.go:293-308 | an Origin that is absent or the proxy's own is sent as the upstream origin |
| Url.StripPort | main.go:853 | the host without its port is a prefix of the host, and the host itself when it has no `:` |
| Url.HostnameOfHostPort | main.go:853 | a host with neither `:` nor brackets is its own hostname, with or without a port |
| Url.RemoveEmptyPort | main.go:158 | `http.NewRequest` changes a host at most by dropping its final `:` |
| Classifier.Sniff | main.go:625-653 | a body counts as a font exactly for a font path whose type lacks "font" and whose body is over four bytes and opens with `wOFF` or, past eight bytes, 00 01 00 00; the type becomes `font/woff2`, `font/woff` or `font/ttf` accordingly and is otherwise unchanged |
| Classifier.Classify | main.go:616-702 | an answer is rewritten exactly when its type names JavaScript, CSS or JSON; binary exactly when it is not such text and is a sniffed font, has a binary type or a static path; injected exactly when it is HTML, not binary and not an excluded path |
| Classifier.SignaturesExclusive | main.go:637-651 | no body carries both font signatures |
| Classifier.WoffRecognised | main.go:635-702 | a font path with a non-font type and a `wOFF` body gets `font/woff2` or `font/woff`; it is binary exactly when its type does not name JavaScript, CSS or JSON, and then it is not injected into |
| Classifier.TrueTypeRecognised | main.go:647-702 | the same for a body over eight bytes opening with the sfnt version 1.0, which gets `font/ttf` |
| Classifier.ContentTypeOnlyCorrected | main.go:616-653 | the Content-Type changes only through sniffing |
| Classifier.TextTypeWins | main.go:682-685 | JavaScript, CSS and JSON are never binary, whatever the path or body, and are rewritten |
| Classifier.RewriteAndBinaryExclusive | main.go:683-688 | no answer is both rewritten and binary |
| Classifier.StaticPathNotInjected | main.go:663-702 | a static-file path is never injected into unless its type names rewritable text |
| Classifier.ApiJspCovers | main.go:700-702 | the `_api.jsp` exclusion is implied by the `api.jsp` one |
| Classifier.PlainWoff2Example | main.go:625-645 | a `.woff2` path served as `text/plain` with a `wOFF` body is a binary `font/woff2` |
| Rewrite.PrefixedIdle | main.go:538-573 | a text without `https://my.utaipei.edu.tw` is untouched by the location and attribute rewrites |
| Rewrite.RefreshIdle | main.go:552-554 | without the portal's HTTPS origin no meta refresh tag is rewritten |
| Rewrite.OriginsRemoved | main.go:527-535 | for a clean public URL the origin group leaves none of the seven origins behind |
| Rewrite.LaterGroupsIdle | main.go:519-576 | for a clean public URL `replaceTargetURLs` is the origin group alone |
| Rewrite.OriginsPointAtProxy | main.go:519-576 | for a clean public URL the result names neither upstream host nor localhost by an absolute origin |
| Rewrite.OriginsIdle | main.go:527-535 | a text with no origin passes the origin group unchanged |
| Rewrite.NothingToRewrite | main.go:519-576 | a page naming no upstream or localhost origin is returned unchanged |
| Rewrite.Idempotent | main.go:519-576 | for a clean public URL, rewriting twice gives the same as once |
| Rewrite.DefaultIsClean | main.go:521-524 | with no public URL the links point at `http://127.0.0.1:8080`, which is clean |
| Tables.CellMatch | main.go:493 | the cell pattern reads a reference cell whole, with its attributes and text as groups |
| Tables.CellSubmatch | main.go:498-501 | re-reading a matched cell gives back its attributes and text |
| Tables.LabelCellOf | main.go:495-508 | a cell numbered below the label count gets `data-label` with its column's header; any other is kept |
| Tables.CellsLabelled | main.go:494-509 | the cells of a row, numbered from `k`, are labelled as the reference says |
| Tables.RowLabelled | main.go:491-509 | each row is labelled as the reference says, counting its cells from 0 |
| Tables.RowMatch | main.go:491 | the row pattern reads a reference row whole, with its inner text as the group |
| Tables.RowsLabelled | main.go:490-510 | the rows of a body are labelled as the reference says |
| Tables.BodyLabelled | main.go:488-511 | the body of a reference table is labelled as the reference says |
| Tables.HeadMatch | main.go:477 | the header cell pattern reads a reference header cell whole |
| Tables.HeadInnerFound | main.go:477-478 | inside a reference `<thead>` the header cell pattern finds exactly its header cells |
| Tables.TheadOf | main.go:472-473 | the first `<thead>` of a reference table is its header block |
| Tables.HeadersOf | main.go:472-485 | the labels read from a reference table are its header texts, trimmed |
| Tables.Unlabelled | main.go:488 | a table whose header row has no cells is left alone |
| Tables.TableLabelled | main.go:470-516 | a reference table is labelled as the reference says |
| Tables.TableBlockMatch | main.go:468 | the table pattern reads a reference table whole |
| Tables.AddTableDataLabelsLayout | main.go:463-517 | on any document of reference tables and gaps, `addTableDataLabels` is the reference labelling: the `k`th cell of every body row gets the `k`th header label, tables without header cells are left alone, gaps are kept |
| Tables.NoTheadUnchanged | main.go:473-475 | a table without `<thead` is left as it is |
| Tables.NoTableUnchanged | main.go:468-470 | a text without `<table` is left as it is |
| Tables.TableShows | main.go:502 | header label `i` shows in a labelled table whose first row has more than `i` cells |
| Tables.SampleLabelled | main_test.go:56-85 | the test's table comes back labelled and holds `data-label="姓名"` and `data-label="學號"` |
| Tables.SampleShows | main_test.go:77-84 | the test's labelled text holds the label of each header |
| Inject.CloseMatch | main.go:441 | `(?i)</head>` matches exactly where a `</head>` in any case starts, taking seven runes |
| Inject.OpenMatch | main.go:446 | `(?i)<body[^>]*>` at a `<body…>` tag takes the whole tag |
| Inject.OpenNoMatch | main.go:446 | `(?i)<body[^>]*>` matches nowhere but at a `<body` in any case |
| Inject.NoCloseIdle | main.go:442 | a text with no `</head>` is not changed by replacing them |
| Inject.FirstClose | main.go:443 | the first `</head>` is replaced, and the rest treated alike |
| Inject.BeforeFirstClose | main.go:443 | with a literal payload, the first `</head>` gets the payload before it |
| Inject.ExpandedFirstClose | main.go:443 | as written, the first `</head>` is replaced by the payload expanded as a template |
| Inject.AfterNoOpen | main.go:447 | a text with no `<body` is left as it is |
| Inject.AfterFirstOpen | main.go:448-450 | the payload goes after the first `<body…>` tag, and the rest treated alike |
| Inject.PlacedBeforeHead | main.go:441-443 | a page with a `</head>` gets the payload before each of them: expanded as written, literally as intended |
| Inject.PlacedAfterBody | main.go:444-450 | a page with no `</head>` and a `<body…>` tag gets the body payload after each such tag |
| Inject.PlacedInFront | main.go:451-454 | a page with neither gets the meta tags, the viewport tag, the styles and the script in front |
| Inject.FirstHead | main.go:429 | `strings.Replace(…, 1)` acts on the first `<head>` |
| Inject.ViewportAfterHead | main.go:426-430 | a page with no viewport gets the tag right after its first `<head>` |
| Inject.ViewportNamed | main.go:428-429 | after the tag goes in, the page names a viewport |
| Inject.ViewportIdempotent | main.go:426-430 | adding the viewport tag twice is adding it once |
| Inject.StripIdle | main.go:403-410 | a page that never says `oncontextmenu`, in any case, loses nothing |
| Inject.ViewportTag | main.go:426 | the viewport tag holds no `</head>` and has `<` only at its start |
| Inject.OneClose | main.go:443 | with one `</head>` between close-free parts, the literal payload replaces that one |
| Inject.OneCloseAsWritten | main.go:443 | as written, that one `</head>` is replaced by the expanded payload |
| Inject.PlacedInHead | main.go:441-443 | as written, a page with one `</head>` after `<head>` and the viewport tag gets the expanded payload just before it |
| Inject.PlacedInHeadFixed | main.go:441-443 | the same with the payload placed as it is |
| Inject.PlainUnblocked | main.go:397-430 | a plain page is unchanged until the viewport tag goes after its first `<head>` |
| Inject.PlainPage | main.go:394-461 | as written, a plain page with one `<head>` and one `</head>` comes out labelled, with the viewport after `<head>` and the expanded payload before `</head>` |
| Inject.PlainPageFixed | main.go:394-461 | the same page with the payload itself before `</head>` |
| Inject.NoCachePlain | main.go:433-438 | the no-cache meta tags hold no `$` |
| Inject.DollarDropped | main.go:443 | the template `$x` names no group and expands to nothing |
| Inject.TemplateMangles | main.go:441-443 | as written, the style sheet `$x` leaves the page two runes short of the payload |
| Inject.HeadPayloadPlain | main.go:413-443 | assets without `$` make a payload without `$` |
| Inject.ExpanderInserts | main.go:443 | a template without `$` expands to itself for any match |
| Inject.PlainAssetsPlaced | main.go:440-455 | with assets free of `$`, the payload goes in the same either way |
| Inject.PlainAssetsAgree | main.go:394-461 | with assets free of `$`, `optimizeHTML` as written equals the intended one on every page |
| Template.Extract | main.go:443 | a reference after a `$` has a non-empty name of name runes, written `{name}` or as the longest name; there is none only when no name starts there or a brace opens |
| Template.Expand | main.go:927 | `Regexp.Expand` copies a template that holds no `$` as it is |
| Template.ExpandEscape | main.go:927 | an escaped text expands to itself, whatever the match |
| Template.ExpandPlainFront | main.go:927 | a front part without `$` is copied by expansion |
| Text.TrimSpaceSpec | main.go:180 | `TrimSpace` keeps the factor between leading and trailing white space |
| Text.TrimSpaceIdempotent | main.go:484 | trimming twice is trimming once |
| Text.ReplaceAllIsJoinSplit | main.go:219 | `ReplaceAll` is `Join(Split(s, p), r)` |
| Text.SplitJoinRoundTrip | main.go:219 | joining the split pieces with the pattern gives the text back |
| Text.ReplaceAllRemoves | main.go:527 | with an overlap-free replacement, `ReplaceAll` leaves no pattern behind |
| Text.DecimalRoundTrip | main.go:821 | reading back what `%d` printed gives the length |
| Cookies.TransformSetCookie | main.go:845-946 | as written: the cookie unchanged when the public URL does not parse, the local transform on 127.0.0.1 or localhost, the production transform for the public host otherwise |
| Cookies.TransformSetCookieFixed | main.go:845-946 | the same with the intended `Path` step |
| Cookies.CreateUtaipeiCookie | main.go:948-1025 | as written: nothing when the public URL does not parse or is local, else the school-wide copy with `secure` tested before the `Path` rewrite |
| Cookies.CreateUtaipeiCookieFixed | main.go:948-1025 | the same with `secure` tested after the intended `Path` step |
| Cookies.DropSchoolLine | main.go:863-869 | the local domain step drops exactly the `Domain` attributes naming the school or a subdomain |
| Cookies.UnmentionedDomains | main.go:864 | a cookie that never says `domain=` has nothing for the local domain step to drop |
| Cookies.DropSecureLine | main.go:871-874 | over plain HTTP exactly the `Secure` flags are dropped |
| Cookies.RootPathLine | main.go:876-885 | the intended `Path` step swaps each `Path` attribute for `Path=/`, or appends one |
| Cookies.SchoolScopedLine | main.go:971-979 | the copy's domain step swaps each `Domain` for `.utaipei.edu.tw`, or appends one |
| Cookies.ProxyDomainLine | main.go:925-927 | the production domain step swaps each `Domain` for the proxy's host |
| Cookies.MarkSecureLine | main.go:981-984 | `Secure` is appended as an attribute when the cookie does not say `secure` |
| Cookies.LocalLine | main.go:858-885 | the intended local transform, attribute by attribute, up to `SameSite` |
| Cookies.ProductionLine | main.go:922-945 | the intended production transform, attribute by attribute |
| Cookies.UtaipeiLine | main.go:968-994 | the school-wide copy, attribute by attribute, up to `SameSite` |
| Cookies.RootPathsSpec | main.go:876-885 | after the `Path` step the cookie has a `Path`, every `Path` is `Path=/`, and no other attribute came or went |
| Cookies.LocalAttrsSpec | main.go:858-885 | the local transform leaves no school `Domain`, no `Secure` over HTTP, and `Path=/` as the only path; the pair and other attributes are kept |
| Cookies.ProductionAttrsSpec | main.go:922-945 | the production transform makes every `Domain` the proxy's host, drops `Secure` over HTTP and leaves `Path=/` as the only path |
| Cookies.SchoolScopedSpec | main.go:971-979 | the copy's domain step leaves `.utaipei.edu.tw` as the only `Domain` |
| Cookies.ScopedRootSpec | main.go:968-994 | before its `Secure`, the copy has one kind of `Domain` and one kind of `Path` |
| Cookies.UtaipeiAttrsSpec | main.go:968-1021 | the copy's attributes: `.utaipei.edu.tw` the only `Domain`, `Path=/` the only path, the rest kept |
| Cookies.LocalSameSiteSpec | main.go:887-916 | a `SameSite` is added exactly when the cookie says none: `Lax` over HTTP, `None` over HTTPS, with `Secure` for a login cookie over HTTPS |
| Cookies.CrossSiteSpec | main.go:996-1021 | the copy gets `SameSite=None` exactly when it says no `SameSite`, with `Secure` for a login cookie that lacks it |
| Cookies.RootPathAttached | main.go:876-885 | after the intended `Path` step every cookie has a `Path` attribute |
| Cookies.PathFound | main.go:879 | the `Path` pattern matches exactly when one attribute is a `Path` |
| Cookies.PathGateAgrees | main.go:877 | where the cookie has a `Path` attribute the substring gate agrees with the pattern |
| Cookies.RootPathGate | main.go:877-885 | the `Path` step as written is the intended one exactly where the substring gate agrees with the pattern |
| Cookies.RootPathAsWrittenAttached | main.go:877-885 | as written, the `Path` step leaves a `Path` attribute wherever the gate agrees |
| Cookies.LocalAgrees | main.go:858-919 | the local transform as written is the intended one when its `Path` gate agrees |
| Cookies.ProductionAgrees | main.go:922-945 | the production transform as written is the intended one when its `Path` gate agrees |
| Cookies.UtaipeiSameSite | main.go:996-1021 | the school-wide copy as written always says `samesite` |
| Cookies.UtaipeiSecure | main.go:981-1014 | the intended school-wide copy always says `secure` and `samesite` |
| Cookies.SubdomainRead | main.go:866 | a `Domain` naming the school through any subdomain is matched whole by the local pattern |
| Cookies.LaxAdded | main.go:904-914 | a cookie without `samesite` over HTTP gets `SameSite=Lax` |
| Cookies.LocalExample | main.go:858-919 | `SESSION=…; Domain=<sub>.utaipei.edu.tw; Path=<p>` through a local HTTP proxy becomes `SESSION=…; Path=/; SameSite=Lax` |
| Cookies.PathGateMisses | main.go:877-884 | `lastpath=/x` says `path=` but has no `Path` attribute, so the step as written adds none |
| Cookies.SecureLost | main.go:981-993 | the copy as written of a plain cookie whose path says `secure` never says `secure`; the intended copy does |
| Extraction.ExtractCode | main.go:1089-1096 | a non-empty code is a part of the page, and occurs only when the page has an `of_display(…)` call |
| Extraction.NoCallNoCode | main.go:1090-1095 | a page that never says `of_display` yields no code |
| Extraction.CallMatch | main.go:1090 | the pattern matches `of_display('c')` whole, capturing `c` |
| Extraction.CallFirst | main.go:1091 | a call after a front that never says `of_display` is the first match |
| Extraction.CodeOfCall | main.go:1089-1096 | a page whose first `of_display` opens a call for a non-empty quote-free code yields that code, whatever comes before and after |
| Reply.Spread | main.go:757-767 | each upstream value yields one or two values sent: itself rewritten, and its copy unless that is empty |
| Reply.FanOut | main.go:755-769 | the `Set-Cookie` values sent for the upstream's: each rewritten for the proxy, then its school-wide copy when there is one |
| Reply.UtaipeiCookieNonEmpty | main.go:763-766 | the school-wide copy is never empty, as written or intended, so production always sends it |
| Reply.FanOutAlone | main.go:755-769 | on a local host one cookie is sent per upstream cookie, rewritten, in order |
| Reply.FanOutPaired | main.go:755-769 | on a production host each cookie is sent twice in order: rewritten for the proxy, then the copy as written |
| Reply.FanOutFixed | main.go:755-769 | the fan-out with both cookie functions as intended |
| Reply.FanOutPairedFixed | main.go:755-769 | the intended production fan-out: each cookie, then its copy, which says `secure` |
| Reply.AddEach | main.go:749-774 | in any key order, each key ends with its earlier values followed by its additions |
| Reply.CopiedKey | main.go:749-774 | the header after the copy loop, key by key |
| Reply.TypedByPath | main.go:777-788 | only Content-Type is touched by the font-path typing |
| Reply.Static | main.go:777-800 | a binary answer gets a year of caching, no `Pragma` or `Expires`, the sniffed type when it differs, and nothing else changed |
| Reply.Cors | main.go:802-811 | a cross-origin reply lets the request's origin read it with credentials, and changes nothing else |
| Reply.FinalStatus | main.go:825-830 | a redirect status becomes 200, any other stays, and the result is never a redirect |
| Reply.FinalStatusIdempotent | main.go:825-830 | deciding the status twice decides nothing new |
| Reply.Passes | main.go:776-837 | caching, CORS and the status leave a header they do not name as the copy loop left it |
| Reply.CookiesFannedOut | main.go:747-774 | the reply's `Set-Cookie` is the fan-out of the upstream's, present exactly when the upstream sent one |
| Reply.CookiesFannedOutFixed | main.go:747-774 | with the intended cookie functions, the reply's `Set-Cookie` is the intended fan-out |
| Reply.StatusPolicy | main.go:813-837 | the browser never sees a redirect: preflights and redirects get 200, other statuses pass, and a 200 to anything but a preflight has no `Location` |
| Reply.LocationKept | main.go:834-837 | otherwise the upstream's `Location` reaches the browser as sent |
| Reply.OthersPassed | main.go:749-774 | a header the proxy does not manage reaches the browser as the upstream sent it, and only then |
| Reply.StaticCached | main.go:777-800 | a static file is cached for a year with no `Pragma` or `Expires`, carrying the sniffed type when sniffing corrected it |
| Reply.CorsFinished | main.go:802-817 | the dressed header answers a cross-origin request for anything but a static file |
| Reply.CorsAnswered | main.go:802-811 | a cross-origin request for anything but a static file may read the reply with credentials |
| Reply.ReadLength | main.go:692 | a `Content-Length` value reads as a number exactly when it is all digits |
| Reply.Announced | main.go:819-822 | the lengths a header's `Content-Length` values announce, one per value |
| Reply.AnnouncedOne | main.go:821 | a header whose only length is `n` printed announces `n` alone |
| Reply.PageFinished | main.go:819-822 | the status stage gives an injected page its length as sent |
| Reply.PageLength | main.go:819-822 | a page injected into announces exactly one length, the length sent |
| Reply.StaleLength | main.go:687-773 | as written, rewritten text carries its new length followed by every length the upstream sent |
| Reply.OneLength | main.go:687-773 | with the upstream's length left out, rewritten text announces exactly its new length |

## Left out

- Logging: every `log.Printf`, and the debugging reads of the reply body for API, `perchk.jsp` and `uaa002` paths (main.go:711-743), which change nothing.
- The HTTP client, its transport, timeout and cookie jar: the upstream is an oracle from the hop number and the outbound request to a reply, a transport failure or a body-read failure.
- `url.Parse`, `URL.Parse` (reference resolution) and `URL.String` are parameters of `Url.UrlLib`; `Redirects.HopsStayOffLocalhost` assumes that `parse` gives back what `format` printed.
- The bodies are not carried through the reply: `Reply.Respond` takes the rewritten text's and the sent page's byte lengths as parameters, computed by `Rewrite` and `Inject`.
- The contents of the embedded CSS and JavaScript assets are a parameter (`Inject.Assets`).
- Header keys are taken as already canonical (`Content-Type`, `Content-Length`, `Set-Cookie`, …), as Go's client and Gin deliver them; `Header.Get`'s canonicalisation of the key it is given is not modelled, and every lookup uses the canonical spelling.
- Go's map iteration order in the reply's copy loop is the `order` parameter; the properties hold for every order.
- The Gin router, `main`, `NewProxyServer`, `ServeHTTP`, `parseHTMLHandler`, `extractText` and `TestNewProxyServer` are not part of this model; neither is `TestOptimizeHTML`, whose checks are on the asset contents.
- `ProxyHandler`'s redirect of `/` (main.go:581-584) and its 502 answer when `doProxyRequest` fails (main.go:607-612) are not modelled; the model starts from the outcome of `doProxyRequest`.
- Byte-to-rune decoding: pages and cookies are taken as sequences of runes, and `Text.Lower` lowers only the runes whose lower case can meet an ASCII pattern.
- Template.NameRune: accepts only ASCII letters, digits and `_`, where Go's `Regexp.Expand` also accepts any rune for which `unicode.IsLetter` or `unicode.IsDigit` holds; the Unicode tables are not modelled, so a `$` followed by a non-ASCII letter (possible in a proxy host name spliced into `; Domain=`) expands differently.
- Extraction.CodeOfCall: covers calls written without white space inside the parentheses; calls with spaces are matched by the same pattern but have no lemma of their own.
- Extraction.ExtractCode: does not state that every page with a call yields a non-empty code; that follows from `CodeOfCall` only for pages of its shape.
- Rewrite.Idempotent: holds for a clean public URL only; a public URL containing `//localhost` makes the `localhost` rules fire again on their own output.

## Findings

| source | as written | input that shows it | evidently intended | confidence | as-written member | corrected member |
|---|---|---|---|---|---|---|
| main.go:877-884 | the `Path` step (also main.go:935-941) decides whether a `Path` exists with the substring test `Contains(ToLower(c), "path=")` and then replaces the `;\s*path=` pattern | `lastpath=/x` through a local plain-HTTP proxy: no `Path` attribute, yet the substring test passes, the pattern replaces nothing and no `Path=/` is added | every cookie leaves with `Path=/` | not executed | Cookies.PathGateMisses | Cookies.RootPathAttached |
| main.go:981-993 | the school-wide copy tests for `secure` anywhere in the text before the `Path` rewrite | `x=1; Path=/secure` on a production host: the path satisfies the test, then becomes `Path=/`, and the copy has no `Secure` | the copy always carries `Secure` | not executed | Cookies.SecureLost | Cookies.UtaipeiSecure |
| main.go:441-443 | the payload goes in through `ReplaceAllString`, which expands `$name`, `${name}` and `$$` in the injected CSS, JS and meta tags | an injected style sheet `$x`: the two runes expand to nothing | the payload is inserted literally (`ReplaceAllLiteralString` or a `$$` escape) | not executed | Inject.TemplateMangles | Inject.PlainPageFixed |
| main.go:687-693 | the handler sets its own `Content-Length` for rewritten JavaScript, CSS or JSON, but the copy loop skips the upstream's only for injected HTML (main.go:751) and `Add`s it | a JavaScript answer with an upstream `Content-Length`: the reply announces two lengths | the reply announces only the rewritten length | not executed | Reply.StaleLength | Reply.OneLength |
