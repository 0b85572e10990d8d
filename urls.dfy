/**
 * Go's `url.ParseRequestURI` is not part of this model. Callers pass it in as a function
 * that either rejects its input or yields the parsed URL's scheme.
 */
module Urls {
  import opened Wrappers

  /** What the callers read from a parsed URL: only its scheme. */
  datatype ParsedUri = ParsedUri(scheme: string)

  /** The shape of `url.ParseRequestURI`: `None` where Go returns an error. */
  type UriParser = string -> Option<ParsedUri>

  const Https := "https"
}
