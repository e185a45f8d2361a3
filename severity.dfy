/** The severity scale of Tor's logger (trunk/src/common/log.c): syslog-style
    integers where a MORE critical severity has a SMALLER number, the
    lowercase names used in the log and in configuration, and the band
    test every sink applies. */
module Severity {

  // The numbers are those of <syslog.h>, which log.h re-exports.
  const LOG_ERR: int := 3
  const LOG_WARN: int := 4
  const LOG_NOTICE: int := 5
  const LOG_INFO: int := 6
  const LOG_DEBUG: int := 7

  /** A C string: no NUL inside it. */
  predicate NoNul(s: string) {
    forall k :: 0 <= k < |s| ==> s[k] != '\0'
  }

  predicate IsSeverity(s: int) {
    LOG_ERR <= s <= LOG_DEBUG
  }

  /** A sink with band [maxLoglevel, loglevel] is handed a message of
      `severity` exactly when this holds; a band with maxLoglevel >
      loglevel accepts nothing. */
  predicate InBand(severity: int, loglevel: int, maxLoglevel: int) {
    maxLoglevel <= severity <= loglevel
  }

  /** The descriptive name of a severity; anything else is a failed
      assertion in the source, hence the precondition. */
  function SevToString(severity: int): (name: string)
    requires IsSeverity(severity)
    ensures IsLowerName(name) && NoNul(name)
    ensures 3 <= |name| <= 6
  {
    if severity == LOG_DEBUG then "debug"
    else if severity == LOG_INFO then "info"
    else if severity == LOG_NOTICE then "notice"
    else if severity == LOG_WARN then "warn"
    else "err"
  }

  /** The public name of SevToString. */
  function LogLevelToString(level: int): (name: string)
    requires IsSeverity(level)
    ensures NoNul(name) && ParseLogLevel(name) == level
  {
    NamesDistinct();
    SevToString(level)
  }

  predicate IsLowerName(s: string) {
    forall k :: 0 <= k < |s| ==> 'a' <= s[k] <= 'z'
  }

  /** ASCII case folding, as strcasecmp does it in the C locale: the result
      is never an upper-case letter, and only upper-case letters change. */
  function Lower(c: char): (r: char)
    ensures !('A' <= r <= 'Z')
    ensures r != c <==> 'A' <= c <= 'Z'
  {
    if 'A' <= c <= 'Z' then (c as int - 'A' as int + 'a' as int) as char else c
  }

  /** strcasecmp(a, b) == 0 */
  predicate SameIgnoringCase(a: string, b: string) {
    |a| == |b| && forall k :: 0 <= k < |a| ==> Lower(a[k]) == Lower(b[k])
  }

  /** The numeric severity named by the C string `level`, compared without
      regard to case, or -1 when `level` names none of them. */
  function ParseLogLevel(level: string): (r: int)
    requires NoNul(level)
    ensures r == -1 || (IsSeverity(r) && SameIgnoringCase(level, SevToString(r)))
    ensures r == -1 <==> forall s :: IsSeverity(s) ==> !SameIgnoringCase(level, SevToString(s))
  {
    if SameIgnoringCase(level, "err") then LOG_ERR
    else if SameIgnoringCase(level, "warn") then LOG_WARN
    else if SameIgnoringCase(level, "notice") then LOG_NOTICE
    else if SameIgnoringCase(level, "info") then LOG_INFO
    else if SameIgnoringCase(level, "debug") then LOG_DEBUG
    else -1
  }

  /** No name matches another severity's name, even ignoring case; this is
      what makes parsing a name give back its own severity. */
  lemma NamesDistinct()
    ensures forall s, t :: IsSeverity(s) && IsSeverity(t) && SameIgnoringCase(SevToString(s), SevToString(t)) ==> s == t
  {
    forall s, t | IsSeverity(s) && IsSeverity(t) && s != t
      ensures !SameIgnoringCase(SevToString(s), SevToString(t))
    {
      var a, b := SevToString(s), SevToString(t);
      if |a| == |b| {
        // Names of equal length differ in their first letter.
        assert Lower(a[0]) != Lower(b[0]);
      }
    }
  }

  /** parse_log_level(sev_to_string(s)) == s for every severity. */
  lemma ParseNameRoundTrip(s: int)
    requires IsSeverity(s)
    ensures ParseLogLevel(SevToString(s)) == s
  {
    NamesDistinct();
    assert SameIgnoringCase(SevToString(s), SevToString(s));
  }

  /** Parsing ignores case: names that differ only in case parse alike. */
  lemma ParseIgnoresCase(a: string, b: string)
    requires NoNul(a) && NoNul(b) && SameIgnoringCase(a, b)
    ensures ParseLogLevel(a) == ParseLogLevel(b)
  {
    forall n: string | |n| == |a|
      ensures SameIgnoringCase(a, n) <==> SameIgnoringCase(b, n)
    {
      if SameIgnoringCase(a, n) {
        assert forall k :: 0 <= k < |b| ==> Lower(b[k]) == Lower(a[k]) == Lower(n[k]);
      }
      if SameIgnoringCase(b, n) {
        assert forall k :: 0 <= k < |a| ==> Lower(a[k]) == Lower(b[k]) == Lower(n[k]);
      }
    }
  }
}
