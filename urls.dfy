/**
 * The URL parser the extension calls (`new URL`, which follows the WHATWG URL
 * Standard) is foreign to the model: it is a pair of functions handed to every
 * operation that parses, and `None` stands for the `TypeError` it throws.
 */
module Urls {
  import opened Text
  import opened Wrappers

  /**
   * The fields of a parsed URL that the extension reads. Parsed URLs are
   * ASCII: the standard punycode-encodes host names and percent-encodes paths.
   */
  datatype UrlRecord = UrlRecord(protocol: AStr, host: AStr, hostname: AStr, pathname: AStr, href: AStr)

  /** A URL the parser produced: its serialisation `href` is never empty. */
  type Url = u: UrlRecord | u.href != [] witness UrlRecord([], [], [], [], ['x'])

  /** `new URL(s)` and `new URL(s, base)`; `None` where they throw. */
  datatype UrlParser = UrlParser(parse: string -> Option<Url>, parseWithBase: (string, string) -> Option<Url>)

  /** `hostname.replace(/^www\./, '')`. */
  function StripWww(hostname: AStr): (r: AStr)
    ensures hostname == r || hostname == "www." + r
    ensures hostname != r <==> |hostname| >= 4 && hostname[..4] == "www."
  {
    if |hostname| >= 4 && hostname[..4] == "www." then hostname[4..] else hostname
  }
}
