/**
 * How `ProxyHandler` classifies an upstream answer before it touches the
 * body: static or binary content (which it passes through with long-lived
 * caching), JavaScript, CSS and JSON (whose upstream URLs it rewrites) and
 * HTML pages (into which it injects its own styles and scripts).
 *
 * The classification reads the answer's Content-Type, the inbound request
 * path and the first bytes of the body. Font files served with a wrong
 * Content-Type are recognised by their signature: "wOFF" opens a WOFF file
 * (section 3 of the W3C WOFF File Format 1.0) and 00 01 00 00 is the sfnt
 * version of a TrueType font.
 */
module Classifier {
  import opened Text
  import opened Http

  /** What the handler decided about an answer. */
  datatype Verdict = Verdict(
    binary: bool,       // passed through as a static file
    contentType: string, // the Content-Type after font sniffing
    rewrite: bool,      // JavaScript, CSS or JSON whose URLs are rewritten
    inject: bool)       // an HTML page that gets the injected payload

  /** "wOFF". */
  const WoffSignature: seq<byte> := [0x77, 0x4F, 0x46, 0x46]

  /** The sfnt version 1.0 that opens a TrueType font. */
  const TrueTypeSignature: seq<byte> := [0x00, 0x01, 0x00, 0x00]

  /** A path the handler expects to be a font. */
  predicate FontPath(lowerPath: string) {
    HasSuffix(lowerPath, ".ttf") || HasSuffix(lowerPath, ".woff") || HasSuffix(lowerPath, ".woff2")
    || HasSuffix(lowerPath, ".otf") || HasSuffix(lowerPath, ".eot")
  }

  /** A lower-cased Content-Type naming binary content. */
  predicate BinaryType(lowerType: string) {
    Contains(lowerType, "font") || Contains(lowerType, "image") || Contains(lowerType, "video")
    || Contains(lowerType, "audio") || Contains(lowerType, "application/octet-stream")
    || Contains(lowerType, "application/pdf") || Contains(lowerType, "application/font")
    || Contains(lowerType, "application/x-font")
  }

  /** A path of a static file (fonts, images, style sheets, scripts) or under a font directory. */
  predicate StaticPath(lowerPath: string) {
    HasSuffix(lowerPath, ".ttf") || HasSuffix(lowerPath, ".otf") || HasSuffix(lowerPath, ".woff")
    || HasSuffix(lowerPath, ".woff2") || HasSuffix(lowerPath, ".eot") || HasSuffix(lowerPath, ".svg")
    || HasSuffix(lowerPath, ".png") || HasSuffix(lowerPath, ".jpg") || HasSuffix(lowerPath, ".jpeg")
    || HasSuffix(lowerPath, ".gif") || HasSuffix(lowerPath, ".ico") || HasSuffix(lowerPath, ".webp")
    || HasSuffix(lowerPath, ".css") || HasSuffix(lowerPath, ".js") || Contains(lowerPath, "/font")
  }

  /** A lower-cased Content-Type of text the handler rewrites. */
  predicate TextType(lowerType: string) {
    Contains(lowerType, "javascript") || Contains(lowerType, "css") || Contains(lowerType, "json")
  }

  /** A path the handler never injects into: the favourites page and the JSP and REST APIs. */
  predicate ExcludedPath(lowerPath: string) {
    HasSuffix(lowerPath, "/favorite.jsp") || Contains(lowerPath, "_api.jsp")
    || Contains(lowerPath, "/api/") || Contains(lowerPath, "api.jsp")
  }

  /** Whether a font path's body carries a font signature, and the Content-Type that names it. */
  datatype Sniffed = Sniffed(font: bool, contentType: string)

  /**
   * Font sniffing: only for a font path whose Content-Type does not say
   * "font", and only for bodies longer than four bytes.
   */
  function Sniff(lowerPath: string, contentType: string, body: seq<byte>): (r: Sniffed)
    ensures !r.font ==> r.contentType == contentType
    ensures r.font <==>
      FontPath(lowerPath) && !Contains(Lower(contentType), "font") && |body| > 4
      && (body[..4] == WoffSignature || (|body| > 8 && body[..4] == TrueTypeSignature))
    ensures r.font && body[..4] == WoffSignature ==>
      r.contentType == (if HasSuffix(lowerPath, ".woff2") then "font/woff2" else "font/woff")
    ensures r.font && body[..4] == TrueTypeSignature ==> r.contentType == "font/ttf"
  {
    if FontPath(lowerPath) && !Contains(Lower(contentType), "font") && |body| > 4 then
      var woff := body[..4] == WoffSignature;
      var ttf := |body| > 8 && body[..4] == TrueTypeSignature;
      var afterWoff := if woff then (if HasSuffix(lowerPath, ".woff2") then "font/woff2" else "font/woff") else contentType;
      Sniffed(woff || ttf, if ttf then "font/ttf" else afterWoff)
    else Sniffed(false, contentType)
  }

  /**
   * The classification of an answer with Content-Type `contentType` and
   * body `body` to a request for `path`. The JavaScript, CSS and JSON test
   * reads the Content-Type as the upstream sent it, not the sniffed one.
   * The ensures are the four decisions in closed form, for the lemmas
   * below to use; the properties they imply are stated by those lemmas.
   */
  function Classify(contentType: string, path: string, body: seq<byte>): (v: Verdict)
    ensures v.rewrite <==> TextType(Lower(contentType))
    ensures v.binary <==>
      !TextType(Lower(contentType))
      && (Sniff(Lower(path), contentType, body).font || BinaryType(Lower(contentType)) || StaticPath(Lower(path)))
    ensures v.contentType == Sniff(Lower(path), contentType, body).contentType
    ensures v.inject <==>
      Contains(Lower(contentType), "text/html") && !v.binary && !ExcludedPath(Lower(path))
  {
    var lowerType, lowerPath := Lower(contentType), Lower(path);
    var sniffed := Sniff(lowerPath, contentType, body);
    var binary := (sniffed.font || BinaryType(lowerType) || StaticPath(lowerPath)) && !TextType(lowerType);
    var html := Contains(lowerType, "text/html");
    Verdict(binary, sniffed.contentType, !binary && TextType(lowerType),
            html && !binary && !ExcludedPath(lowerPath))
  }

  // ------------------------------------------------------------ properties

  /** The two signatures differ in their first byte, so a body carries at most one. */
  lemma SignaturesExclusive(body: seq<byte>)
    requires |body| >= 4
    ensures !(body[..4] == WoffSignature && body[..4] == TrueTypeSignature)
  {
  }

  /**
   * A font path whose Content-Type lacks "font" but whose body opens with
   * "wOFF" is a binary WOFF or WOFF2 file, and so not injected into, unless
   * the Content-Type names rewritable text.
   */
  lemma WoffRecognised(contentType: string, path: string, body: seq<byte>)
    requires FontPath(Lower(path)) && !Contains(Lower(contentType), "font")
    requires |body| > 4 && body[..4] == WoffSignature
    ensures var v := Classify(contentType, path, body);
      && (v.binary <==> !TextType(Lower(contentType)))
      && v.contentType == (if HasSuffix(Lower(path), ".woff2") then "font/woff2" else "font/woff")
      && (!TextType(Lower(contentType)) ==> !v.inject)
  {
  }

  /** The same for a body longer than eight bytes that opens with the sfnt version 1.0. */
  lemma TrueTypeRecognised(contentType: string, path: string, body: seq<byte>)
    requires FontPath(Lower(path)) && !Contains(Lower(contentType), "font")
    requires |body| > 8 && body[..4] == TrueTypeSignature
    ensures var v := Classify(contentType, path, body);
      && (v.binary <==> !TextType(Lower(contentType)))
      && v.contentType == "font/ttf"
      && (!TextType(Lower(contentType)) ==> !v.inject)
  {
  }

  /**
   * The Content-Type changes only through sniffing: for a font path with a
   * Content-Type lacking "font" and a body longer than four bytes, and then
   * only to a font type.
   */
  lemma ContentTypeOnlyCorrected(contentType: string, path: string, body: seq<byte>)
    ensures var v := Classify(contentType, path, body);
      v.contentType != contentType ==>
        && FontPath(Lower(path)) && !Contains(Lower(contentType), "font") && |body| > 4
        && v.contentType in {"font/woff", "font/woff2", "font/ttf"}
  {
    var s := Sniff(Lower(path), contentType, body);
    if s.font {
      SignaturesExclusive(body);
    }
  }

  /** JavaScript, CSS and JSON are never binary, whatever the path or the body, and are rewritten. */
  lemma TextTypeWins(contentType: string, path: string, body: seq<byte>)
    requires TextType(Lower(contentType))
    ensures var v := Classify(contentType, path, body);
      !v.binary && v.rewrite
  {
  }

  /** An answer is never both rewritten as text and treated as binary. */
  lemma RewriteAndBinaryExclusive(contentType: string, path: string, body: seq<byte>)
    ensures var v := Classify(contentType, path, body);
      !(v.rewrite && v.binary)
  {
  }

  /** A static-file path is never injected into, unless its Content-Type names rewritable text. */
  lemma StaticPathNotInjected(contentType: string, path: string, body: seq<byte>)
    requires StaticPath(Lower(path)) && !TextType(Lower(contentType))
    ensures Classify(contentType, path, body).binary
    ensures !Classify(contentType, path, body).inject
  {
  }

  /** `.../api.jsp` covers `..._api.jsp`: a path containing the latter contains the former. */
  lemma ApiJspCovers(path: string)
    ensures Contains(path, "_api.jsp") ==> Contains(path, "api.jsp")
  {
    assert "_api.jsp" == "_" + "api.jsp" + "";
    ContainsOfPart(path, "_", "api.jsp", "");
  }

  /** "text/plain" is lower case and names neither a font nor rewritable text. */
  lemma PlainTextType()
    ensures Lower("text/plain") == "text/plain"
    ensures !Contains("text/plain", "font") && !TextType("text/plain")
  {
    var t := "text/plain";
    LowerFixed(t);
    MissingRune(t, "font", 1);
    MissingRune(t, "javascript", 0);
    MissingRune(t, "css", 0);
    MissingRune(t, "json", 1);
  }

  /** The example font path is lower case and a font path. */
  lemma Woff2Path()
    ensures Lower("/utaipei/fonts/a.woff2") == "/utaipei/fonts/a.woff2"
    ensures FontPath("/utaipei/fonts/a.woff2") && HasSuffix("/utaipei/fonts/a.woff2", ".woff2")
  {
    var path := "/utaipei/fonts/a.woff2";
    LowerFixed(path);
    assert HasSuffix(path, ".woff2");
  }

  /** A `.woff2` path served as text/plain whose body opens with "wOFF" is a binary WOFF2 font. */
  lemma PlainWoff2Example(body: seq<byte>)
    requires |body| > 4 && body[..4] == WoffSignature
    ensures var v := Classify("text/plain", "/utaipei/fonts/a.woff2", body);
      v.binary && v.contentType == "font/woff2" && !v.inject
  {
    PlainTextType();
    Woff2Path();
    WoffRecognised("text/plain", "/utaipei/fonts/a.woff2", body);
  }
}
