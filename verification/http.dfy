/**
 * HTTP values as the proxy handles them: header maps with Go's `Get`,
 * `Set`, `Add` and `Del`, bytes, responses and status classes.
 *
 * Header keys are taken to be in canonical form already (`User-Agent`,
 * `Set-Cookie`), which is how Go's server and client deliver them; every
 * key the proxy names itself is written canonically too, so the
 * canonicalisation `net/http` applies inside these calls is the identity.
 */
module Http {
  import opened Text

  newtype byte = b: int | 0 <= b < 256

  /** `http.Header`: each key maps to its values in arrival order. */
  type Header = map<string, seq<string>>

  /** `Header.Get`: the first value, or "" when there is none. */
  function Get(h: Header, key: string): string {
    if key in h && |h[key]| > 0 then h[key][0] else ""
  }

  /** Every key other than `key` keeps its entry (or its absence). */
  ghost predicate SameElsewhere(h: Header, r: Header, key: string) {
    forall k :: k != key ==> (k in r <==> k in h) && (k in h ==> r[k] == h[k])
  }

  /** `Header.Set`: `key` now has exactly `v`. */
  function Set(h: Header, key: string, v: string): Header {
    h[key := [v]]
  }

  /** `Header.Add`: `v` joins the end of `key`'s values. */
  function Add(h: Header, key: string, v: string): (r: Header)
    ensures key in r && r[key] == (if key in h then h[key] else []) + [v]
    ensures SameElsewhere(h, r, key)
  {
    h[key := (if key in h then h[key] else []) + [v]]
  }

  /** Adds each of `vs` in turn. */
  function AddAll(h: Header, key: string, vs: seq<string>): (r: Header)
    ensures |vs| > 0 ==> key in r && r[key] == (if key in h then h[key] else []) + vs
    ensures |vs| == 0 ==> r == h
    ensures SameElsewhere(h, r, key)
    decreases |vs|
  {
    if |vs| == 0 then h else AddAll(Add(h, key, vs[0]), key, vs[1..])
  }

  /** `Header.Del`. */
  function Del(h: Header, key: string): Header {
    h - {key}
  }

  /** An upstream answer after its body has been read in full. */
  datatype Response = Response(status: int, header: Header, body: seq<byte>)

  /** The 3xx class, which the proxy treats as a redirect. */
  predicate IsRedirect(status: int) {
    300 <= status < 400
  }

  /** 307 and 308 keep the method and body (RFC 9110, sections 15.4.8 and 15.4.9). */
  predicate KeepsMethod(status: int) {
    status == 307 || status == 308
  }

  /** The bytes of a string of ASCII runes (the literal byte signatures the classifier checks). */
  function AsciiBytes(s: string): (b: seq<byte>)
    requires forall i :: 0 <= i < |s| ==> s[i] as int < 128
    ensures |b| == |s| && forall i :: 0 <= i < |s| ==> b[i] as int == s[i] as int
  {
    seq(|s|, i requires 0 <= i < |s| => s[i] as int as byte)
  }
}
