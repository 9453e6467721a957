/**
 * The forwarding loop: one inbound request becomes up to `MaxRedirects`
 * outbound hops, each redirect moving a cursor (URL, method, replay body),
 * until the upstream gives a final answer or the hops run out.
 *
 * The upstream (the HTTP client, its transport and its cookie jar) is an
 * oracle from the hop number and the outbound request to a reply.
 */
module Redirects {
  import opened Optional
  import opened Text
  import opened Http
  import opened Url
  import opened RequestHeaders

  const MaxRedirects := 100

  /** The inbound request body, read in full before the first hop (or unreadable). */
  datatype Payload = Payload(bytes: seq<byte>) | Unreadable

  /** The browser's request as the proxy receives it. */
  datatype Inbound = Inbound(verb: string, path: string, rawQuery: string, header: Header, body: Payload)

  /** One hop: the request handed to the client. */
  datatype Outbound = Outbound(verb: string, url: Url, host: string, header: Header, body: seq<byte>)

  /** What the client gives back for a hop. */
  datatype Reply = Answer(resp: Response) | TransportFailure | BodyReadFailure

  /** The upstream, as seen by hop number `i`. */
  type Upstream = (nat, Outbound) -> Reply

  datatype Failure = RequestBodyUnreadable | RequestInvalid | TransportFailed | ResponseUnreadable | TooManyRedirects

  datatype Outcome = Delivered(resp: Response) | Failed(why: Failure)

  /** Where the next hop goes, with which method, replaying which body. */
  datatype Cursor = Cursor(url: string, verb: string, body: seq<byte>)

  /** The decision after one hop. */
  datatype Step = Stop(outcome: Outcome) | Follow(next: Cursor)

  /**
   * A whole run: its outcome, the cursor it ended on (whose method is what
   * the inbound request's method has become) and the cursors of the hops
   * it made, in order.
   */
  datatype Run = Run(outcome: Outcome, final: Cursor, trail: seq<Cursor>)

  /** The first hop's URL: the upstream origin, the inbound path and its query. */
  function StartUrl(p: Proxy, inbound: Inbound): string {
    p.target + inbound.path + (if inbound.rawQuery != "" then "?" + inbound.rawQuery else "")
  }

  /** A token character of RFC 9110 section 5.6.2. */
  predicate IsTokenChar(c: char) {
    ('a' <= c <= 'z') || ('A' <= c <= 'Z') || ('0' <= c <= '9') || c in "!#$%&'*+-.^_`|~"
  }

  /** A method `http.NewRequest` accepts: a non-empty token. */
  predicate ValidMethod(m: string) {
    |m| > 0 && forall i :: 0 <= i < |m| ==> IsTokenChar(m[i])
  }

  /** The header block of a hop to `url` while the inbound method is `verb`. */
  type HeaderFor = (string, string) -> Header

  /** The proxy's header block for the hops of `inbound`. */
  function HeadersOf(p: Proxy, inbound: Inbound): HeaderFor {
    (url: string, verb: string) => Normalize(p, inbound.header, url, verb)
  }

  /**
   * `http.NewRequest` for the cursor, plus the header block: `None` when
   * the method or the URL is rejected.
   */
  function Prepare(lib: UrlLib, headers: HeaderFor, cur: Cursor): (req: Option<Outbound>)
    ensures req.Some? <==>
      ValidMethod(if cur.verb == "" then "GET" else cur.verb) && lib.parse(cur.url).Some?
    ensures req.Some? ==> req.value.body == cur.body && req.value.host == req.value.url.host
  {
    var verb := if cur.verb == "" then "GET" else cur.verb;
    if !ValidMethod(verb) then None
    else match lib.parse(cur.url)
      case None => None
      case Some(u) =>
        var target := u.(host := RemoveEmptyPort(u.host));
        Some(Outbound(verb, target, target.host, headers(cur.url, cur.verb), cur.body))
  }

  /**
   * The cursor after a redirect to `location` from `base` (the cursor's URL
   * parsed): the same cursor again when the location does not resolve.
   */
  function Redirected(lib: UrlLib, cur: Cursor, base: Url, status: int, location: string): Cursor {
    match lib.resolve(base, location)
    case None => cur
    case Some(next) =>
      var fixed := if Hostname(next.host) == "localhost" then next.(host := base.host) else next;
      var url := lib.format(fixed);
      if KeepsMethod(status) then Cursor(url, cur.verb, cur.body) else Cursor(url, "GET", [])
  }

  /** What the proxy does with the reply to a hop. */
  function Decide(lib: UrlLib, cur: Cursor, base: Url, reply: Reply): Step {
    match reply
    case TransportFailure => Stop(Failed(TransportFailed))
    case BodyReadFailure => Stop(Failed(ResponseUnreadable))
    case Answer(resp) =>
      if IsRedirect(resp.status) then
        var location := Get(resp.header, "Location");
        if location == "" then Stop(Delivered(resp))
        else Follow(Redirected(lib, cur, base, resp.status, location))
      else Stop(Delivered(resp))
  }

  /** The reply hop `i` gets, when its request could be built. */
  function ReplyAt(lib: UrlLib, headers: HeaderFor, up: Upstream, i: nat, cur: Cursor): Option<Reply> {
    match Prepare(lib, headers, cur)
    case None => None
    case Some(req) => Some(up(i, req))
  }

  /** Hop number `i` from cursor `cur`. */
  function Hop(lib: UrlLib, headers: HeaderFor, up: Upstream, i: nat, cur: Cursor): Step {
    match Prepare(lib, headers, cur)
    case None => Stop(Failed(RequestInvalid))
    case Some(req) => Decide(lib, cur, lib.parse(cur.url).value, up(i, req))
  }

  /** The step function of a run. */
  type Stepper = (nat, Cursor) -> Step

  function Stepping(lib: UrlLib, headers: HeaderFor, up: Upstream): Stepper {
    (i: nat, cur: Cursor) => Hop(lib, headers, up, i, cur)
  }

  /**
   * The hops from number `i` on, for any step function that never itself
   * reports running out of hops.
   */
  function Chase(step: Stepper, i: nat, cur: Cursor): (run: Run)
    requires i <= MaxRedirects
    ensures |run.trail| <= MaxRedirects - i
    decreases MaxRedirects - i
  {
    if i == MaxRedirects then Run(Failed(TooManyRedirects), cur, [])
    else match step(i, cur)
      case Stop(o) => Run(o, cur, [cur])
      case Follow(next) =>
        var rest := Chase(step, i + 1, next);
        Run(rest.outcome, rest.final, [cur] + rest.trail)
  }

  /** Hop `i + j` of a run from hop `i` moved on to hop `i + j + 1`. */
  lemma {:induction false} ChaseLinked(step: Stepper, i: nat, cur: Cursor, j: nat)
    requires i <= MaxRedirects
    requires j + 1 < |Chase(step, i, cur).trail|
    ensures step(i + j, Chase(step, i, cur).trail[j]) == Follow(Chase(step, i, cur).trail[j + 1])
    decreases j
  {
    var next := step(i, cur).next;
    var rest := Chase(step, i + 1, next);
    assert Chase(step, i, cur).trail == [cur] + rest.trail;
    if j > 0 {
      ChaseLinked(step, i + 1, next, j - 1);
    }
  }

  /**
   * How a run from hop `i` ends: it starts at `cur`, and its last hop
   * either stops, with the run's outcome, or would move on when no hops are
   * left, which is running out of hops.
   */
  lemma {:induction false} ChaseEnd(step: Stepper, i: nat, cur: Cursor)
    requires i < MaxRedirects
    ensures var run := Chase(step, i, cur);
      var n := |run.trail|;
      && 0 < n && run.trail[0] == cur
      && (step(i + n - 1, run.trail[n - 1]).Stop? ==>
            run.final == run.trail[n - 1] && step(i + n - 1, run.final) == Stop(run.outcome))
      && (step(i + n - 1, run.trail[n - 1]).Follow? ==>
            && n == MaxRedirects - i
            && run.outcome == Failed(TooManyRedirects)
            && step(i + n - 1, run.trail[n - 1]) == Follow(run.final))
    decreases MaxRedirects - i
  {
    if step(i, cur).Follow? && i + 1 < MaxRedirects {
      var next := step(i, cur).next;
      ChaseEnd(step, i + 1, next);
      var rest := Chase(step, i + 1, next);
      var m := |rest.trail|;
      assert Chase(step, i, cur).trail == [cur] + rest.trail;
      assert Chase(step, i, cur).trail[m] == rest.trail[m - 1];
      assert i + (m + 1) - 1 == (i + 1) + m - 1;
    }
  }

  /** The hops of a run that starts at `start`, whatever header block the hops carry. */
  function Runs(lib: UrlLib, headers: HeaderFor, up: Upstream, start: Cursor): Run {
    Chase(Stepping(lib, headers, up), 0, start)
  }

  /** `doProxyRequest` as a whole. */
  function Forward(p: Proxy, lib: UrlLib, inbound: Inbound, up: Upstream): Run {
    match inbound.body
    case Unreadable => Run(Failed(RequestBodyUnreadable), Cursor(StartUrl(p, inbound), inbound.verb, []), [])
    case Payload(b) => Runs(lib, HeadersOf(p, inbound), up, Cursor(StartUrl(p, inbound), inbound.verb, b))
  }

  /**
   * `doProxyRequest`: reads the inbound body, then runs the hop loop; `verb`
   * is what the inbound request's method has become.
   */
  method DoProxyRequest(p: Proxy, lib: UrlLib, inbound: Inbound, up: Upstream)
    returns (outcome: Outcome, verb: string)
    ensures outcome == Forward(p, lib, inbound, up).outcome
    ensures verb == Forward(p, lib, inbound, up).final.verb
  {
    if inbound.body.Unreadable? {
      return Failed(RequestBodyUnreadable), inbound.verb;
    }
    outcome, verb := Relay(Stepping(lib, HeadersOf(p, inbound), up), Cursor(StartUrl(p, inbound), inbound.verb, inbound.body.bytes));
  }

  /** One turn of `Chase`: a hop that stops ends the run, one that moves on hands it over. */
  lemma ChaseTurn(step: Stepper, i: nat, cur: Cursor)
    requires i < MaxRedirects
    ensures step(i, cur).Stop? ==>
      Chase(step, i, cur).outcome == step(i, cur).outcome && Chase(step, i, cur).final == cur
    ensures step(i, cur).Follow? ==>
      && Chase(step, i, cur).outcome == Chase(step, i + 1, step(i, cur).next).outcome
      && Chase(step, i, cur).final == Chase(step, i + 1, step(i, cur).next).final
  {
  }

  /** A hop whose request was built is decided on the reply to it. */
  lemma HopOnReply(lib: UrlLib, headers: HeaderFor, up: Upstream, i: nat, cur: Cursor, req: Outbound)
    requires Prepare(lib, headers, cur) == Some(req)
    ensures Stepping(lib, headers, up)(i, cur) == Decide(lib, cur, lib.parse(cur.url).value, up(i, req))
  {
  }

  /** A hop whose request could not be built fails the run. */
  lemma HopUnprepared(lib: UrlLib, headers: HeaderFor, up: Upstream, i: nat, cur: Cursor)
    requires Prepare(lib, headers, cur).None?
    ensures Stepping(lib, headers, up)(i, cur) == Stop(Failed(RequestInvalid))
  {
  }

  /** One pass of the hop loop's body: builds the request, sends it and decides on the reply. */
  method Turn(lib: UrlLib, headers: HeaderFor, up: Upstream, i: nat, cur: Cursor) returns (s: Step)
    ensures s == Hop(lib, headers, up, i, cur)
  {
    var verb := if cur.verb == "" then "GET" else cur.verb;
    if !ValidMethod(verb) {
      return Stop(Failed(RequestInvalid));
    }
    var parsed := lib.parse(cur.url);
    if parsed.None? {
      return Stop(Failed(RequestInvalid));
    }
    var base := parsed.value;
    var target := base.(host := RemoveEmptyPort(base.host));
    var req := Outbound(verb, target, target.host, headers(cur.url, cur.verb), cur.body);
    var reply := up(i, req);
    if reply.TransportFailure? {
      return Stop(Failed(TransportFailed));
    }
    if reply.BodyReadFailure? {
      return Stop(Failed(ResponseUnreadable));
    }
    var resp := reply.resp;
    if !IsRedirect(resp.status) {
      return Stop(Delivered(resp));
    }
    var location := Get(resp.header, "Location");
    if location == "" {
      return Stop(Delivered(resp));
    }
    var next := lib.resolve(base, location);
    if next.None? {
      return Follow(cur);
    }
    var fixed := next.value;
    if Hostname(fixed.host) == "localhost" {
      fixed := fixed.(host := base.host);
    }
    if resp.status != 307 && resp.status != 308 {
      return Follow(Cursor(lib.format(fixed), "GET", []));
    }
    return Follow(Cursor(lib.format(fixed), cur.verb, cur.body));
  }

  /**
   * The hop loop as the proxy runs it, moving the cursor in place; `step`
   * is the loop's body (`Turn` computes it for the proxy's hops).
   */
  method Relay(step: Stepper, start: Cursor) returns (outcome: Outcome, verb: string)
    ensures outcome == Chase(step, 0, start).outcome
    ensures verb == Chase(step, 0, start).final.verb
  {
    ghost var run := Chase(step, 0, start);
    var cur := start;
    var i := 0;
    while i < MaxRedirects
      invariant i <= MaxRedirects
      invariant Chase(step, i, cur).outcome == run.outcome
      invariant Chase(step, i, cur).final.verb == run.final.verb
      decreases MaxRedirects - i
    {
      var s := step(i, cur);
      ChaseTurn(step, i, cur);
      match s
      case Stop(o) =>
        return o, cur.verb;
      case Follow(next) =>
        cur := next;
        i := i + 1;
    }
    return Failed(TooManyRedirects), cur.verb;
  }

  // ------------------------------------------------------------ properties

  /**
   * A hop that moves on got a 3xx answer with a non-empty Location, and
   * moves as RFC 9110 says: a 307 or 308 keeps the method and the body, any
   * other 3xx turns the request into a body-less GET, and a Location that
   * does not resolve repeats the hop.
   */
  lemma FollowRule(lib: UrlLib, headers: HeaderFor, up: Upstream, i: nat, cur: Cursor)
    requires Hop(lib, headers, up, i, cur).Follow?
    ensures var r := ReplyAt(lib, headers, up, i, cur);
      && r.Some? && r.value.Answer? && IsRedirect(r.value.resp.status)
      && var next, status := Hop(lib, headers, up, i, cur).next, r.value.resp.status;
         var base, location := lib.parse(cur.url).value, Get(r.value.resp.header, "Location");
         && location != ""
         && next == Redirected(lib, cur, base, status, location)
         && (lib.resolve(base, location).None? ==> next == cur)
         && (lib.resolve(base, location).Some? && KeepsMethod(status) ==>
               next.verb == cur.verb && next.body == cur.body)
         && (lib.resolve(base, location).Some? && !KeepsMethod(status) ==>
               next.verb == "GET" && next.body == [])
  {
  }

  /**
   * A hop stops with a response exactly when its answer is not a redirect
   * the proxy can follow, and then the response is that answer.
   */
  lemma StopRule(lib: UrlLib, headers: HeaderFor, up: Upstream, i: nat, cur: Cursor, resp: Response)
    ensures Hop(lib, headers, up, i, cur) == Stop(Delivered(resp)) <==>
      ReplyAt(lib, headers, up, i, cur) == Some(Answer(resp))
      && (!IsRedirect(resp.status) || Get(resp.header, "Location") == "")
  {
  }

  /** A hop never reports running out of hops itself. */
  lemma HopNeverExhausts(lib: UrlLib, headers: HeaderFor, up: Upstream, i: nat, cur: Cursor)
    ensures Hop(lib, headers, up, i, cur) != Stop(Failed(TooManyRedirects))
  {
  }

  lemma SteppingIsHop(lib: UrlLib, headers: HeaderFor, up: Upstream, i: nat, cur: Cursor)
    ensures Stepping(lib, headers, up)(i, cur) == Hop(lib, headers, up, i, cur)
  {
  }

  /** Hop `j` of a run moved on to hop `j + 1`. */
  lemma TrailLinked(lib: UrlLib, headers: HeaderFor, up: Upstream, start: Cursor, j: nat)
    requires j + 1 < |Runs(lib, headers, up, start).trail|
    ensures var run := Runs(lib, headers, up, start);
      Hop(lib, headers, up, j, run.trail[j]) == Follow(run.trail[j + 1])
  {
    var step := Stepping(lib, headers, up);
    var run := Chase(step, 0, start);
    ChaseLinked(step, 0, start, j);
    assert step(j, run.trail[j]) == Follow(run.trail[j + 1]);
    SteppingIsHop(lib, headers, up, j, run.trail[j]);
  }

  /**
   * How a run whose last hop is `last` ended: a hop that stops ends it on
   * that hop's cursor with that hop's outcome; one that moves on ran out of
   * hops, every one having been made.
   */
  predicate Ended(run: Run, last: Step)
    requires 0 < |run.trail|
  {
    && (last.Stop? ==> last == Stop(run.outcome) && run.final == run.trail[|run.trail| - 1])
    && (last.Follow? ==>
          |run.trail| == MaxRedirects && run.outcome == Failed(TooManyRedirects) && last.next == run.final)
  }

  /** How the last hop of a run ended it. */
  lemma TrailEnd(lib: UrlLib, headers: HeaderFor, up: Upstream, start: Cursor)
    ensures var run := Runs(lib, headers, up, start);
      var n := |run.trail|;
      && 0 < n <= MaxRedirects
      && Ended(run, Hop(lib, headers, up, n - 1, run.trail[n - 1]))
  {
    var step := Stepping(lib, headers, up);
    var run := Chase(step, 0, start);
    assert run == Runs(lib, headers, up, start);
    RunEnd(step, start);
    var n := |run.trail|;
    SteppingIsHop(lib, headers, up, n - 1, run.trail[n - 1]);
    EndedBy(run, step(n - 1, run.trail[n - 1]), Hop(lib, headers, up, n - 1, run.trail[n - 1]));
  }

  lemma EndedBy(run: Run, s: Step, t: Step)
    requires 0 < |run.trail| && s == t && Ended(run, s)
    ensures Ended(run, t)
  {
  }

  /** `ChaseEnd` for a whole run. */
  lemma RunEnd(step: Stepper, start: Cursor)
    ensures var run := Chase(step, 0, start);
      var n := |run.trail|;
      && 0 < n
      && Ended(run, step(n - 1, run.trail[n - 1]))
  {
    ChaseEnd(step, 0, start);
  }

  /** The proxy never makes more than `MaxRedirects` hops. */
  lemma AtMostMaxHops(p: Proxy, lib: UrlLib, inbound: Inbound, up: Upstream)
    ensures |Forward(p, lib, inbound, up).trail| <= MaxRedirects
  {
  }

  /** The reply was a 3xx answer with a non-empty Location: one the proxy follows. */
  predicate FollowedAnswer(r: Option<Reply>) {
    r.Some? && r.value.Answer? && IsRedirect(r.value.resp.status) && Get(r.value.resp.header, "Location") != ""
  }

  /** Every hop of a run that ran out of hops moved on. */
  lemma ExhaustedHopMovedOn(lib: UrlLib, headers: HeaderFor, up: Upstream, start: Cursor, j: nat)
    requires Runs(lib, headers, up, start).outcome == Failed(TooManyRedirects)
    requires j < |Runs(lib, headers, up, start).trail|
    ensures Hop(lib, headers, up, j, Runs(lib, headers, up, start).trail[j]).Follow?
  {
    var run := Runs(lib, headers, up, start);
    var n := |run.trail|;
    if j + 1 < n {
      TrailLinked(lib, headers, up, start, j);
    } else {
      TrailEnd(lib, headers, up, start);
      HopNeverExhausts(lib, headers, up, j, run.trail[j]);
    }
  }

  /**
   * Running out of hops happens only after `MaxRedirects` hops each
   * answered by a followed 3xx with a Location; it is an error, never a
   * response.
   */
  lemma ExhaustionOnlyAfterRedirects(lib: UrlLib, headers: HeaderFor, up: Upstream, start: Cursor)
    requires Runs(lib, headers, up, start).outcome == Failed(TooManyRedirects)
    ensures var run := Runs(lib, headers, up, start);
      && |run.trail| == MaxRedirects
      && forall j :: 0 <= j < MaxRedirects ==> FollowedAnswer(ReplyAt(lib, headers, up, j, run.trail[j]))
  {
    var run := Runs(lib, headers, up, start);
    var n := |run.trail|;
    TrailEnd(lib, headers, up, start);
    ExhaustedHopMovedOn(lib, headers, up, start, n - 1);
    forall j | 0 <= j < MaxRedirects
      ensures FollowedAnswer(ReplyAt(lib, headers, up, j, run.trail[j]))
    {
      ExhaustedHopMovedOn(lib, headers, up, start, j);
      FollowRule(lib, headers, up, j, run.trail[j]);
    }
  }

  /**
   * A delivered response is the answer to the last hop, and that answer was
   * not a redirect the proxy could follow: not a 3xx, or a 3xx without a
   * Location.
   */
  lemma DeliveredIsFinalAnswer(lib: UrlLib, headers: HeaderFor, up: Upstream, start: Cursor)
    requires Runs(lib, headers, up, start).outcome.Delivered?
    ensures var run := Runs(lib, headers, up, start);
      var resp := run.outcome.resp;
      && ReplyAt(lib, headers, up, |run.trail| - 1, run.trail[|run.trail| - 1]) == Some(Answer(resp))
      && (!IsRedirect(resp.status) || Get(resp.header, "Location") == "")
  {
    var run := Runs(lib, headers, up, start);
    TrailEnd(lib, headers, up, start);
    StopRule(lib, headers, up, |run.trail| - 1, run.trail[|run.trail| - 1], run.outcome.resp);
  }

  /**
   * A 3xx without a Location ends the run: that very answer is what the
   * proxy delivers.
   */
  lemma RedirectWithoutLocationDelivered(lib: UrlLib, headers: HeaderFor, up: Upstream, start: Cursor, j: nat, resp: Response)
    requires j < |Runs(lib, headers, up, start).trail|
    requires ReplyAt(lib, headers, up, j, Runs(lib, headers, up, start).trail[j]) == Some(Answer(resp))
    requires IsRedirect(resp.status) && Get(resp.header, "Location") == ""
    ensures var run := Runs(lib, headers, up, start);
      j == |run.trail| - 1 && run.outcome == Delivered(resp)
  {
    var run := Runs(lib, headers, up, start);
    StopRule(lib, headers, up, j, run.trail[j], resp);
    if j + 1 < |run.trail| {
      TrailLinked(lib, headers, up, start, j);
    }
    TrailEnd(lib, headers, up, start);
  }

  /** Between consecutive hops of a run the cursor moves by `FollowRule`. */
  lemma ConsecutiveHops(lib: UrlLib, headers: HeaderFor, up: Upstream, start: Cursor, j: nat)
    requires j + 1 < |Runs(lib, headers, up, start).trail|
    ensures var run := Runs(lib, headers, up, start);
      var cur, next := run.trail[j], run.trail[j + 1];
      var r := ReplyAt(lib, headers, up, j, cur);
      && r.Some? && r.value.Answer? && IsRedirect(r.value.resp.status)
      && var status := r.value.resp.status;
         var base, location := lib.parse(cur.url).value, Get(r.value.resp.header, "Location");
         && location != ""
         && next == Redirected(lib, cur, base, status, location)
         && (lib.resolve(base, location).None? ==> next == cur)
         && (lib.resolve(base, location).Some? && KeepsMethod(status) ==>
               next.verb == cur.verb && next.body == cur.body)
         && (lib.resolve(base, location).Some? && !KeepsMethod(status) ==>
               next.verb == "GET" && next.body == [])
  {
    var run := Runs(lib, headers, up, start);
    TrailLinked(lib, headers, up, start, j);
    FollowRule(lib, headers, up, j, run.trail[j]);
  }

  /** A redirect to a localhost URL is bent back to the host being visited. */
  lemma LocalhostRedirectFixed(lib: UrlLib, cur: Cursor, base: Url, status: int, location: string)
    requires lib.resolve(base, location).Some?
    requires Hostname(lib.resolve(base, location).value.host) == "localhost"
    ensures Redirected(lib, cur, base, status, location).url ==
      lib.format(lib.resolve(base, location).value.(host := base.host))
  {
  }

  /** `format` then `parse` gives the URL back: a property of `net/url` the next lemma assumes. */
  ghost predicate RoundTrips(lib: UrlLib) {
    forall u :: lib.parse(lib.format(u)) == Some(u)
  }

  /** The host a cursor's URL names, when it parses. */
  function HostOf(lib: UrlLib, cur: Cursor): Option<string> {
    match lib.parse(cur.url)
    case None => None
    case Some(u) => Some(Hostname(u.host))
  }

  /** A redirect from a host other than localhost does not lead to localhost. */
  lemma RedirectOffLocalhost(lib: UrlLib, cur: Cursor, base: Url, status: int, location: string)
    requires RoundTrips(lib)
    requires lib.parse(cur.url) == Some(base) && Hostname(base.host) != "localhost"
    ensures HostOf(lib, Redirected(lib, cur, base, status, location)) != Some("localhost")
  {
    match lib.resolve(base, location)
    case None =>
    case Some(next) =>
      var fixed := if Hostname(next.host) == "localhost" then next.(host := base.host) else next;
      assert lib.parse(lib.format(fixed)) == Some(fixed);
  }

  /** A hop from a host other than localhost does not move on to localhost. */
  lemma FollowOffLocalhost(lib: UrlLib, headers: HeaderFor, up: Upstream, i: nat, cur: Cursor, next: Cursor)
    requires RoundTrips(lib)
    requires HostOf(lib, cur) != Some("localhost")
    requires Hop(lib, headers, up, i, cur) == Follow(next)
    ensures HostOf(lib, next) != Some("localhost")
  {
    var base := lib.parse(cur.url).value;
    var resp := ReplyAt(lib, headers, up, i, cur).value.resp;
    RedirectOffLocalhost(lib, cur, base, resp.status, Get(resp.header, "Location"));
  }

  /** Hop `j` of a run, away from localhost, does not lead hop `j + 1` there. */
  lemma NextOffLocalhost(lib: UrlLib, headers: HeaderFor, up: Upstream, start: Cursor, j: nat)
    requires RoundTrips(lib)
    requires j + 1 < |Runs(lib, headers, up, start).trail|
    requires HostOf(lib, Runs(lib, headers, up, start).trail[j]) != Some("localhost")
    ensures HostOf(lib, Runs(lib, headers, up, start).trail[j + 1]) != Some("localhost")
  {
    var run := Runs(lib, headers, up, start);
    TrailLinked(lib, headers, up, start, j);
    FollowOffLocalhost(lib, headers, up, j, run.trail[j], run.trail[j + 1]);
  }

  /**
   * When formatting and parsing URLs round-trip and the first hop does not
   * go to localhost, no hop of the run does.
   */
  lemma {:induction false} HopsStayOffLocalhost(lib: UrlLib, headers: HeaderFor, up: Upstream, start: Cursor, j: nat)
    requires RoundTrips(lib)
    requires j < |Runs(lib, headers, up, start).trail|
    requires HostOf(lib, Runs(lib, headers, up, start).trail[0]) != Some("localhost")
    ensures HostOf(lib, Runs(lib, headers, up, start).trail[j]) != Some("localhost")
  {
    if j > 0 {
      HopsStayOffLocalhost(lib, headers, up, start, j - 1);
      NextOffLocalhost(lib, headers, up, start, j - 1);
    }
  }

  /** Once a run has turned into a body-less GET it stays one. */
  lemma {:induction false} GetStaysGet(lib: UrlLib, headers: HeaderFor, up: Upstream, start: Cursor, j: nat, k: nat)
    requires j <= k < |Runs(lib, headers, up, start).trail|
    requires Runs(lib, headers, up, start).trail[j].verb == "GET"
    requires Runs(lib, headers, up, start).trail[j].body == []
    ensures Runs(lib, headers, up, start).trail[k].verb == "GET"
    ensures Runs(lib, headers, up, start).trail[k].body == []
    decreases k - j
  {
    if j < k {
      ConsecutiveHops(lib, headers, up, start, j);
      GetStaysGet(lib, headers, up, start, j + 1, k);
    }
  }
}
