/** The source-link validator. Parsing itself is the WHATWG URL Standard's basic URL
    parser (section 4.4 of that standard), which this model does not reimplement: every
    operation here takes the parser as a parameter and relies only on its outcome. */
module Url {

  /** What the parser yields for one input: a failure (the URL constructor throws),
      or a URL whose scheme (without the trailing colon) is `scheme`. */
  datatype UrlParse = ParseFailure | Parsed(scheme: string)

  /** Any total parser; the real one is the browser's. */
  type UrlParser = string -> UrlParse

  /** The `protocol` attribute of a parsed URL: its scheme followed by ":". */
  function Protocol(u: UrlParse): (p: string)
    requires u.Parsed?
    ensures |p| == |u.scheme| + 1 && p[|u.scheme|] == ':'
  {
    u.scheme + ":"
  }

  /** `scheme + ":"` determines `scheme`. */
  lemma ProtocolDeterminesScheme(u: UrlParse, scheme: string)
    requires u.Parsed?
    ensures Protocol(u) == scheme + ":" <==> u.scheme == scheme
  {
    if Protocol(u) == scheme + ":" {
      assert u.scheme == Protocol(u)[..|u.scheme|];
      assert scheme == (scheme + ":")[..|scheme|];
    }
  }

  /** A source is valid exactly when it parses and its scheme is http or https;
      a parse failure makes it invalid. */
  function IsValidHttpUrl(parse: UrlParser, s: string): (r: bool)
    ensures parse(s).ParseFailure? ==> !r
    ensures r <==> parse(s).Parsed? && (parse(s).scheme == "http" || parse(s).scheme == "https")
  {
    match parse(s)
    case ParseFailure => false
    case Parsed(_) =>
      ProtocolDeterminesScheme(parse(s), "http");
      ProtocolDeterminesScheme(parse(s), "https");
      Protocol(parse(s)) == "http:" || Protocol(parse(s)) == "https:"
  }
}
