/**
 * The parts of `net/url` the proxy touches. Parsing, reference resolution
 * and formatting belong to the Go library and enter the model as the
 * functions of a `UrlLib`; the host-and-port arithmetic the proxy's
 * decisions depend on (`URL.Hostname`, and the empty-port trimming
 * `http.NewRequest` applies) is written out here.
 */
module Url {
  import opened Optional
  import opened Text

  /** A parsed URL: the components the proxy reads or writes, the rest kept whole. */
  datatype Url = Url(scheme: string, host: string, rest: string)

  /**
   * `url.Parse`, `(*URL).Parse` (resolution of a reference against a base,
   * RFC 3986 section 5.2) and `(*URL).String`; `None` is a parse error.
   */
  datatype UrlLib = UrlLib(
    parse: string -> Option<Url>,
    resolve: (Url, string) -> Option<Url>,
    format: Url -> string)

  /** The position of the last `c` in `s`. */
  function LastIndex(s: string, c: char): (r: Option<nat>)
    ensures r.Some? ==> r.value < |s| && s[r.value] == c && c !in s[r.value + 1..]
    ensures r.None? ==> c !in s
  {
    if |s| == 0 then None
    else if s[|s| - 1] == c then Some(|s| - 1)
    else
      var r := LastIndex(s[..|s| - 1], c);
      assert s == s[..|s| - 1] + [s[|s| - 1]];
      if r.Some? then
        assert s[r.value + 1..] == s[..|s| - 1][r.value + 1..] + [s[|s| - 1]];
        r
      else r
  }

  /** A port suffix that `splitHostPort` accepts: empty, or ':' and decimal digits. */
  predicate ValidOptionalPort(port: string) {
    port == "" || (port[0] == ':' && forall i :: 1 <= i < |port| ==> '0' <= port[i] <= '9')
  }

  /** The host part of "host:port" with the port cut at the last ':' when what follows is a port. */
  function StripPort(hostPort: string): (h: string)
    ensures h <= hostPort
    ensures ':' !in hostPort ==> h == hostPort
  {
    match LastIndex(hostPort, ':')
    case None => hostPort
    case Some(c) => if ValidOptionalPort(hostPort[c..]) then hostPort[..c] else hostPort
  }

  /**
   * `URL.Hostname`: the host without its port and without the brackets of
   * an IPv6 literal.
   */
  function Hostname(hostPort: string): string {
    var host := StripPort(hostPort);
    if |host| >= 2 && host[0] == '[' && host[|host| - 1] == ']' then host[1..|host| - 1] else host
  }

  /** The last `c` of `a + [c] + b` is the one between them when `b` has none. */
  lemma {:induction false} LastIndexBefore(a: string, c: char, b: string)
    requires c !in b
    ensures LastIndex(a + [c] + b, c) == Some(|a|)
    decreases |b|
  {
    if |b| > 0 {
      var s := a + [c] + b;
      assert s[..|s| - 1] == a + [c] + b[..|b| - 1];
      assert s[|s| - 1] == b[|b| - 1];
      LastIndexBefore(a, c, b[..|b| - 1]);
    }
  }

  /** Digits hold no ':'. */
  lemma DecimalHasNoColon(n: nat)
    ensures ':' !in Decimal(n)
  {
    var d := Decimal(n);
    forall i | 0 <= i < |d| ensures d[i] != ':' {}
  }

  /** A ':' and digits are a port suffix. */
  lemma DigitsArePort(d: string)
    requires forall i :: 0 <= i < |d| ==> '0' <= d[i] <= '9'
    ensures ValidOptionalPort([':'] + d)
  {
    forall i | 1 <= i < |d| + 1 ensures '0' <= ([':'] + d)[i] <= '9' {
      assert ([':'] + d)[i] == d[i - 1];
    }
  }

  /** A port of digits after the last ':' is cut off. */
  lemma StripDigitsPort(h: string, d: string)
    requires ':' !in d && forall i :: 0 <= i < |d| ==> '0' <= d[i] <= '9'
    ensures StripPort(h + [':'] + d) == h
  {
    var hp := h + [':'] + d;
    LastIndexBefore(h, ':', d);
    assert hp[|h|..] == [':'] + d;
    DigitsArePort(d);
    assert hp[..|h|] == h;
  }

  /** A host with neither a ':' nor IPv6 brackets is its own hostname, with or without a port. */
  lemma HostnameOfHostPort(h: string, port: nat)
    requires ':' !in h && (|h| == 0 || h[0] != '[')
    ensures Hostname(h) == h
    ensures Hostname(h + ":" + Decimal(port)) == h
  {
    var d := Decimal(port);
    assert StripPort(h) == h;
    DecimalHasNoColon(port);
    StripDigitsPort(h, d);
    assert h + ":" + d == h + [':'] + d;
  }

  /**
   * `removeEmptyPort` from `net/http`: a host ending in ':' with no port
   * after it loses the ':' (only when the ':' is outside IPv6 brackets).
   */
  function RemoveEmptyPort(host: string): (h: string)
    ensures h <= host && |host| - 1 <= |h|
    ensures h != host ==> host == h + ":"
  {
    var colon := LastIndex(host, ':');
    var bracket := LastIndex(host, ']');
    var hasPort := colon.Some? && (bracket.None? || colon.value > bracket.value);
    if hasPort && |host| > 0 && host[|host| - 1] == ':' then host[..|host| - 1] else host
  }
}
