/**
  Matching a device identifier against a rule's device pattern. The regular
  expression engine is not modelled: it is a parameter that reports either
  whether the pattern is found somewhere in the identifier, or that a
  `std::regex_error` was raised, whether by compiling the pattern or by the
  search itself on this identifier.
 */
module DeviceMatching {

  /** Outcome of a regular-expression search: a `std::regex_error` was raised, or the pattern was (not) found. */
  datatype MatchResult = Invalid | Bool(found: bool)

  /** A regular-expression search engine: `search(device, pattern)`. */
  type RegexSearch = (string, string) -> MatchResult

  /** A device matches when the search succeeds; a search that raises `std::regex_error` never matches. */
  function DeviceMatches(search: RegexSearch, device: string, pattern: string): (matched: bool)
    ensures matched <==> search(device, pattern) == Bool(true)
    ensures search(device, pattern) == Invalid ==> !matched
  {
    match search(device, pattern)
    case Invalid => false
    case Bool(found) => found
  }
}
