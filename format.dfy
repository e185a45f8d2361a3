/** The message formatter of trunk/src/common/log.c: `_log_prefix` and
    `format_msg` writing one log line into a fixed char buffer, together
    with the C library primitives they rely on (tor_snprintf, strlcpy,
    strftime, strlen) modelled as bounded, NUL-terminating copies of texts
    whose rendering happens elsewhere. */
module Format {
  import opened Wrappers
  import opened Severity

  const TRUNCATED_STR: string := "[...truncated]"
  const TRUNCATED_STR_LEN: nat := 14

  /** What the clock supplies to `_log_prefix`: `stamp` is strftime's
      "%b %d %H:%M:%S" rendering of the local time, `usec` the microsecond
      part of gettimeofday. */
  datatype Clock = Clock(stamp: string, usec: nat)

  predicate ValidClock(c: Clock) {
    NoNul(c.stamp) && c.usec < 1000000
  }

  /** The "%s(): " part that a function name adds; nothing without one. */
  function FnPart(funcname: Option<string>): string {
    match funcname
    case None => ""
    case Some(f) => f + "(): "
  }

  predicate ValidText(funcname: Option<string>, msg: string) {
    NoNul(FnPart(funcname)) && NoNul(msg)
  }

  // ---------------------------------------------------------------------
  // Rendering of the prefix, as texts

  function Digit(d: int): char
    requires 0 <= d < 10
  {
    ('0' as int + d) as char
  }

  /** The decimal value of a string of digits. */
  function DigitsValue(s: string): int {
    if s == [] then 0 else DigitsValue(s[..|s| - 1]) * 10 + (s[|s| - 1] as int - '0' as int)
  }

  /** "%.3ld" of a value below 1000: exactly three digits, zero-padded. */
  function ThreeDigits(m: nat): (s: string)
    requires m < 1000
    ensures |s| == 3 && NoNul(s)
    ensures forall k :: 0 <= k < 3 ==> '0' <= s[k] <= '9'
    ensures DigitsValue(s) == m
  {
    var s := [Digit(m / 100), Digit(m / 10 % 10), Digit(m % 10)];
    assert s[..2][..1] == [Digit(m / 100)] && [Digit(m / 100)][..0] == [];
    assert DigitsValue([Digit(m / 100)]) == m / 100;
    assert DigitsValue(s[..2]) == m / 100 * 10 + m / 10 % 10;
    assert DigitsValue(s) == (m / 100 * 10 + m / 10 % 10) * 10 + m % 10;
    s
  }

  /** ".%.3ld [%s] " with the milliseconds and the severity's name. */
  function Tag(usec: nat, severity: int): (t: string)
    requires usec < 1000000 && IsSeverity(severity)
    ensures NoNul(t) && |t| == 8 + |SevToString(severity)|
  {
    "." + ThreeDigits(usec / 1000) + " [" + SevToString(severity) + "] "
  }

  /** The first k characters of s, or all of s when it is shorter. */
  function Clip(s: string, k: nat): (r: string)
    ensures |r| == if |s| <= k then |s| else k
    ensures forall i :: 0 <= i < |r| ==> r[i] == s[i]
  {
    if |s| <= k then s else s[..k]
  }

  /** The prefix `_log_prefix` leaves in a buffer of `bufLen` chars: the
      timestamp (dropped entirely when strftime finds no room for it), then
      the tag, cut so that the terminating NUL still fits. */
  function Prefix(bufLen: nat, clock: Clock, severity: int): (p: string)
    requires 1 <= bufLen && ValidClock(clock) && IsSeverity(severity)
    ensures |p| < bufLen && NoNul(p)
  {
    var stamp := if |clock.stamp| < bufLen then clock.stamp else "";
    Clip(stamp + Tag(clock.usec, severity), bufLen - 1)
  }

  /** The prefix followed by the function name part, cut the same way. */
  function Head(bufLen: nat, clock: Clock, severity: int, funcname: Option<string>): (h: string)
    requires 1 <= bufLen && ValidClock(clock) && IsSeverity(severity) && NoNul(FnPart(funcname))
    ensures |h| < bufLen && NoNul(h)
    ensures var p := Prefix(bufLen, clock, severity); |p| <= |h| && h[..|p|] == p
  {
    if funcname.None? then Prefix(bufLen, clock, severity)
    else Clip(Prefix(bufLen, clock, severity) + FnPart(funcname), bufLen - 1)
  }

  /** The line `format_msg` leaves in a buffer of `bufLen` chars, up to its
      terminating NUL. Two chars are held back for "\n\0". */
  function FormattedLine(bufLen: nat, clock: Clock, severity: int, funcname: Option<string>, msg: string): (line: string)
    requires 17 <= bufLen && ValidClock(clock) && IsSeverity(severity) && ValidText(funcname, msg)
    ensures |Prefix(bufLen - 2, clock, severity)| <= |line| <= bufLen - 2
    ensures var p := Prefix(bufLen - 2, clock, severity);
      |p| <= bufLen - 17 ==> line[..|p|] == p
  {
    Assemble(bufLen - 2, Head(bufLen - 2, clock, severity, funcname), msg)
  }

  /** The head and the message with a newline, when they fit in `len - 1`
      chars; otherwise their first `len - 15` chars, then the truncation
      marker, on whose closing ']' the newline lands. */
  function Assemble(len: nat, head: string, msg: string): (line: string)
    requires TRUNCATED_STR_LEN + 1 <= len && |head| < len
    ensures |head| <= |line| <= len
    ensures |head| + |msg| <= len - 1 ==> line[..|head|] == head
    ensures forall k :: 0 <= k < |head| && k < len - TRUNCATED_STR_LEN - 1 ==> line[k] == head[k]
    ensures |head| <= len - TRUNCATED_STR_LEN - 1 ==> line[..|head|] == head
  {
    if |head| + |msg| <= len - 1 then head + msg + "\n"
    else (head + msg)[..len - TRUNCATED_STR_LEN - 1] + TRUNCATED_STR[..TRUNCATED_STR_LEN - 1] + "\n"
  }

  // ---------------------------------------------------------------------
  // The C primitives, on the buffer

  /** How many chars of `text` a NUL-terminated copy into `cap` chars keeps:
      all of them when they fit with the NUL, else all but room for it. */
  function Kept(cap: nat, text: string): (m: nat)
    requires 0 < cap
    ensures m < cap && m <= |text|
  {
    if |text| < cap then |text| else cap - 1
  }

  /** The copy loop shared by tor_snprintf and strlcpy: the kept chars of
      `text` from `off`, then a NUL; nothing else changes. */
  method CopyBounded(buf: array<char>, off: nat, cap: nat, text: string)
    requires 0 < cap && off + cap <= buf.Length
    modifies buf
    ensures forall i :: 0 <= i < Kept(cap, text) ==> buf[off + i] == text[i]
    ensures buf[off + Kept(cap, text)] == '\0'
    ensures forall k :: 0 <= k < off ==> buf[k] == old(buf[k])
    ensures forall k :: off + Kept(cap, text) < k < buf.Length ==> buf[k] == old(buf[k])
  {
    var m := Kept(cap, text);
    var i := 0;
    while i < m
      invariant 0 <= i <= m
      invariant forall j :: 0 <= j < i ==> buf[off + j] == text[j]
      invariant forall k :: 0 <= k < off ==> buf[k] == old(buf[k])
      invariant forall k :: off + i <= k < buf.Length ==> buf[k] == old(buf[k])
    {
      buf[off + i] := text[i];
      i := i + 1;
    }
    buf[off + m] := '\0';
  }

  /** tor_snprintf of an already rendered text: the text's length when it
      fits with its NUL in `cap` chars, otherwise -1 after writing as much as
      fits (nothing at all when `cap` is 0). Like tor_vsnprintf it also
      puts a NUL in the last char of the window, whether the text fit or
      not. */
  method Snprintf(buf: array<char>, off: nat, cap: nat, text: string) returns (r: int)
    requires off + cap <= buf.Length
    modifies buf
    ensures r == if 0 < cap && |text| < cap then |text| else -1
    ensures cap == 0 ==> forall k :: 0 <= k < buf.Length ==> buf[k] == old(buf[k])
    ensures 0 < cap ==> forall i :: 0 <= i < Kept(cap, text) ==> buf[off + i] == text[i]
    ensures 0 < cap ==> buf[off + Kept(cap, text)] == '\0' && buf[off + cap - 1] == '\0'
    ensures forall k :: 0 <= k < off ==> buf[k] == old(buf[k])
    ensures 0 < cap ==> forall k :: off + Kept(cap, text) < k < buf.Length && k != off + cap - 1 ==> buf[k] == old(buf[k])
  {
    if cap == 0 {
      return -1;
    }
    CopyBounded(buf, off, cap, text);
    buf[off + cap - 1] := '\0';
    r := if |text| < cap then |text| else -1;
  }

  /** strlcpy: copies what fits of `text` with a NUL into `size` chars and
      returns the length of `text`. */
  method Strlcpy(buf: array<char>, off: nat, size: nat, text: string) returns (r: nat)
    requires 0 < size && off + size <= buf.Length
    modifies buf
    ensures r == |text|
    ensures forall i :: 0 <= i < Kept(size, text) ==> buf[off + i] == text[i]
    ensures buf[off + Kept(size, text)] == '\0'
    ensures forall k :: 0 <= k < off ==> buf[k] == old(buf[k])
    ensures forall k :: off + Kept(size, text) < k < buf.Length ==> buf[k] == old(buf[k])
  {
    CopyBounded(buf, off, size, text);
    r := |text|;
  }

  /** strftime at the start of the buffer: the stamp and its NUL when both
      fit in `cap` chars, otherwise 0 and nothing written. */
  method Strftime(buf: array<char>, cap: nat, stamp: string) returns (n: nat)
    requires cap <= buf.Length
    modifies buf
    ensures n == if |stamp| < cap then |stamp| else 0
    ensures |stamp| < cap ==> buf[..n] == stamp && buf[n] == '\0'
    ensures forall k :: n < k < buf.Length ==> buf[k] == old(buf[k])
  {
    if |stamp| < cap {
      CopyBounded(buf, 0, cap, stamp);
      n := |stamp|;
    } else {
      n := 0;
    }
  }

  /** strlen: the index of the first NUL. */
  method StrLen(buf: array<char>) returns (n: nat)
    requires exists k :: 0 <= k < buf.Length && buf[k] == '\0'
    ensures n < buf.Length && buf[n] == '\0'
    ensures forall k :: 0 <= k < n ==> buf[k] != '\0'
  {
    n := 0;
    while buf[n] != '\0'
      invariant n < buf.Length
      invariant forall k :: 0 <= k < n ==> buf[k] != '\0'
      invariant exists k :: n <= k < buf.Length && buf[k] == '\0'
      decreases buf.Length - n
    {
      n := n + 1;
    }
  }

  /** The C string a buffer holds, read up to its first NUL: the text
      written there when that text has no NUL and one follows it. */
  method ReadCString(buf: array<char>, ghost s: string) returns (line: string)
    requires NoNul(s) && |s| < buf.Length && buf[|s|] == '\0'
    requires forall k :: 0 <= k < |s| ==> buf[k] == s[k]
    ensures line == s
  {
    var n := StrLen(buf);
    line := buf[..n];
  }

  // ---------------------------------------------------------------------
  // _log_prefix and format_msg

  /** `_log_prefix`: writes the prefix and a NUL within the first `bufLen`
      chars and returns the prefix's length (bufLen - 1 when it was cut). */
  method LogPrefix(buf: array<char>, bufLen: nat, severity: int, clock: Clock) returns (n: nat)
    requires 1 <= bufLen <= buf.Length && ValidClock(clock) && IsSeverity(severity)
    modifies buf
    ensures n == |Prefix(bufLen, clock, severity)| && n < bufLen
    ensures forall k :: 0 <= k < n ==> buf[k] == Prefix(bufLen, clock, severity)[k]
    ensures buf[n] == '\0'
    ensures forall k :: bufLen <= k < buf.Length ==> buf[k] == old(buf[k])
  {
    var tag := Tag(clock.usec, severity);
    ghost var stamp := if |clock.stamp| < bufLen then clock.stamp else "";
    ghost var p := Clip(stamp + tag, bufLen - 1);
    assert p == Prefix(bufLen, clock, severity);
    var t := Strftime(buf, bufLen, clock.stamp);
    ghost var b0 := buf[..];
    var r := Snprintf(buf, t, bufLen - t, tag);
    if r < 0 {
      n := bufLen - 1;
    } else {
      n := t + r;
    }
    forall k | 0 <= k < n
      ensures buf[k] == p[k]
    {
      if k < t {
        assert buf[k] == b0[k] == stamp[k];
      } else {
        assert buf[k] == tag[k - t];
      }
    }
  }

  /** Lines 121-130 of `format_msg`: the prefix, then the function name
      part, within the first `len` chars; returns where the prefix ends and
      where the head ends, which holds a NUL. */
  method WriteHead(buf: array<char>, len: nat, severity: int, funcname: Option<string>, clock: Clock)
    returns (endOfPrefix: nat, n: nat)
    requires 1 <= len <= buf.Length && ValidClock(clock) && IsSeverity(severity) && NoNul(FnPart(funcname))
    modifies buf
    ensures endOfPrefix == |Prefix(len, clock, severity)|
    ensures n == |Head(len, clock, severity, funcname)| && buf[n] == '\0'
    ensures forall k :: 0 <= k < n ==> buf[k] == Head(len, clock, severity, funcname)[k]
    ensures forall k :: len <= k < buf.Length ==> buf[k] == old(buf[k])
  {
    n := LogPrefix(buf, len, severity, clock);
    endOfPrefix := n;
    ghost var prefix := Prefix(len, clock, severity);
    if funcname.Some? {
      var r := Snprintf(buf, n, len - n, funcname.value + "(): ");
      if r < 0 {
        assert forall k :: 0 <= k < len - 1 ==> buf[k] == (prefix + FnPart(funcname))[k];
        assert buf[len - 1] == '\0';
        n := StrLen(buf);
      } else {
        n := n + r;
        assert forall k :: 0 <= k < n ==> buf[k] == (prefix + FnPart(funcname))[k];
      }
    }
  }

  /** A line that does not fit fills bufLen - 3 chars: the start of head and
      message, then "[...truncated" whose ']' the newline has replaced. */
  lemma LineWhenTruncated(bufLen: nat, clock: Clock, severity: int, funcname: Option<string>, msg: string)
    requires 17 <= bufLen && ValidClock(clock) && IsSeverity(severity) && ValidText(funcname, msg)
    requires |Head(bufLen - 2, clock, severity, funcname)| + |msg| > bufLen - 3
    ensures var line := FormattedLine(bufLen, clock, severity, funcname, msg);
      var head := Head(bufLen - 2, clock, severity, funcname);
      |line| == bufLen - 3 &&
      line[..bufLen - 17] == (head + msg)[..bufLen - 17] &&
      line[bufLen - 17..bufLen - 4] == "[...truncated" &&
      line[bufLen - 4] == '\n'
  {
  }

  /** Every formatted line is a C string ending in its one added newline,
      leaves room for its NUL within bufLen - 2 chars, and holds the whole
      prefix, so the text after the prefix is well defined. */
  lemma LineShape(bufLen: nat, clock: Clock, severity: int, funcname: Option<string>, msg: string)
    requires 17 <= bufLen && ValidClock(clock) && IsSeverity(severity) && ValidText(funcname, msg)
    ensures var line := FormattedLine(bufLen, clock, severity, funcname, msg);
      var p := Prefix(bufLen - 2, clock, severity);
      0 < |line| <= bufLen - 2 && line[|line| - 1] == '\n' && NoNul(line) &&
      |p| <= |line| && (|p| <= bufLen - 17 ==> line[..|p|] == p)
  {
    var len := bufLen - 2;
    var head := Head(len, clock, severity, funcname);
    var line := FormattedLine(bufLen, clock, severity, funcname, msg);
    var body := if |head| + |msg| <= len - 1 then head + msg
                else (head + msg)[..len - TRUNCATED_STR_LEN - 1] + TRUNCATED_STR[..TRUNCATED_STR_LEN - 1];
    assert line == body + "\n";
    assert NoNul(head + msg) by {
      forall k | 0 <= k < |head + msg|
        ensures (head + msg)[k] != '\0'
      {
        if k >= |head| {
          assert (head + msg)[k] == msg[k - |head|];
        }
      }
    }
    assert NoNul(body);
    assert NoNul(line) by {
      forall k | 0 <= k < |line|
        ensures line[k] != '\0'
      {
        if k < |body| {
          assert line[k] == body[k];
        }
      }
    }
  }

  /** When the timestamp leaves room for the tag and the truncation marker,
      the line starts with the whole prefix, stamp then tag, so what follows
      `end_of_prefix` is the message portion. */
  lemma LineStartsWithPrefix(bufLen: nat, clock: Clock, severity: int, funcname: Option<string>, msg: string)
    requires 17 <= bufLen && ValidClock(clock) && IsSeverity(severity) && ValidText(funcname, msg)
    requires |clock.stamp| + 31 <= bufLen
    ensures var p := Prefix(bufLen - 2, clock, severity);
      p == clock.stamp + Tag(clock.usec, severity) &&
      FormattedLine(bufLen, clock, severity, funcname, msg)[..|p|] == p
  {
  }

  /** When stamp, tag, function name and message fit, the line is exactly
      their concatenation plus the newline, and the prefix is the stamp and
      the tag. */
  lemma LineLayout(bufLen: nat, clock: Clock, severity: int, funcname: Option<string>, msg: string)
    requires 17 <= bufLen && ValidClock(clock) && IsSeverity(severity) && ValidText(funcname, msg)
    requires |clock.stamp| + |Tag(clock.usec, severity)| + |FnPart(funcname)| + |msg| <= bufLen - 3
    ensures Prefix(bufLen - 2, clock, severity) == clock.stamp + Tag(clock.usec, severity)
    ensures FormattedLine(bufLen, clock, severity, funcname, msg)
      == clock.stamp + Tag(clock.usec, severity) + FnPart(funcname) + msg + "\n"
  {
    var len := bufLen - 2;
    var prefix := Prefix(len, clock, severity);
    assert prefix == clock.stamp + Tag(clock.usec, severity);
    var head := Head(len, clock, severity, funcname);
    assert head == prefix + FnPart(funcname);
  }

  /** The tag names the severity in brackets, and both the milliseconds and
      the severity can be read back from it. */
  lemma TagReadsBack(usec: nat, severity: int)
    requires usec < 1000000 && IsSeverity(severity)
    ensures var t := Tag(usec, severity);
      var name := SevToString(severity);
      t[0] == '.' && (forall k :: 1 <= k < 4 ==> '0' <= t[k] <= '9') && DigitsValue(t[1..4]) == usec / 1000 &&
      t[4..6] == " [" && t[6..6 + |name|] == name && t[6 + |name|..] == "] " &&
      ParseLogLevel(t[6..6 + |name|]) == severity
  {
    var t := Tag(usec, severity);
    var name := SevToString(severity);
    assert t[1..4] == ThreeDigits(usec / 1000);
    assert t[6..6 + |name|] == name;
    ParseNameRoundTrip(severity);
  }

  /** Line 135 of `format_msg`: "[...truncated]" and its NUL over the last
      15 of the first `len` chars. */
  method MarkTruncated(buf: array<char>, len: nat)
    requires TRUNCATED_STR_LEN + 1 <= len <= buf.Length
    modifies buf
    ensures forall k :: 0 <= k < len - TRUNCATED_STR_LEN - 1 ==> buf[k] == old(buf[k])
    ensures buf[len - TRUNCATED_STR_LEN - 1..len - 1] == TRUNCATED_STR && buf[len - 1] == '\0'
    ensures forall k :: len <= k < buf.Length ==> buf[k] == old(buf[k])
  {
    var _ := Strlcpy(buf, len - TRUNCATED_STR_LEN - 1, len - (len - TRUNCATED_STR_LEN - 1), TRUNCATED_STR);
    assert forall i :: 0 <= i < TRUNCATED_STR_LEN ==> buf[len - TRUNCATED_STR_LEN - 1 + i] == TRUNCATED_STR[i];
  }

  /** Lines 132-141 of `format_msg`: the message after a head of `n`
      chars, or, when it does not fit in the first `len - 1` chars, the
      truncation marker; then "\n\0". Returns where the newline went. */
  method WriteMessage(buf: array<char>, len: nat, n: nat, ghost head: string, msg: string) returns (end: nat)
    requires TRUNCATED_STR_LEN + 1 <= len && len + 2 <= buf.Length
    requires n == |head| < len && buf[n] == '\0'
    requires forall k :: 0 <= k < n ==> buf[k] == head[k]
    modifies buf
    ensures end + 1 == |Assemble(len, head, msg)| && buf[end + 1] == '\0'
    ensures forall k :: 0 <= k <= end ==> buf[k] == Assemble(len, head, msg)[k]
    ensures forall k :: len + 1 <= k < buf.Length ==> buf[k] == old(buf[k])
  {
    ghost var line := Assemble(len, head, msg);
    ghost var b0 := buf[..];
    var r := Snprintf(buf, n, len - n, msg);
    if r < 0 {
      forall k | 0 <= k < len - TRUNCATED_STR_LEN - 1
        ensures buf[k] == (head + msg)[k]
      {
        if k < n {
          assert buf[k] == b0[k] == head[k];
        } else {
          assert buf[k] == msg[k - n];
        }
      }
      end := len - 2;
      MarkTruncated(buf, len);
      assert line == (head + msg)[..len - TRUNCATED_STR_LEN - 1] + TRUNCATED_STR[..TRUNCATED_STR_LEN - 1] + "\n";
      forall k | 0 <= k < end
        ensures buf[k] == line[k]
      {
        if k >= len - TRUNCATED_STR_LEN - 1 {
          assert buf[k] == TRUNCATED_STR[k - (len - TRUNCATED_STR_LEN - 1)];
        }
      }
    } else {
      assert forall k :: 0 <= k < n + r ==> buf[k] == (head + msg)[k];
      end := n + r;
      assert line == head + msg + "\n";
    }
    assert |line| == end + 1 && line[end] == '\n';
    buf[end] := '\n';
    buf[end + 1] := '\0';
  }

  /** `format_msg`: the formatted line followed by its NUL, written within
      the first `buf.Length - 1` chars (the last char is never touched);
      returns where the prefix ends. */
  method FormatMsg(buf: array<char>, severity: int, funcname: Option<string>, clock: Clock, msg: string)
    returns (endOfPrefix: nat)
    requires 17 <= buf.Length && ValidClock(clock) && IsSeverity(severity) && ValidText(funcname, msg)
    modifies buf
    ensures var line := FormattedLine(buf.Length, clock, severity, funcname, msg);
      |line| <= buf.Length - 2 && buf[|line|] == '\0' &&
      forall k :: 0 <= k < |line| ==> buf[k] == line[k]
    ensures endOfPrefix == |Prefix(buf.Length - 2, clock, severity)|
    ensures buf[buf.Length - 1] == old(buf[buf.Length - 1])
  {
    var len := buf.Length - 2;  // room for "\n\0"
    var n;
    endOfPrefix, n := WriteHead(buf, len, severity, funcname, clock);
    var _ := WriteMessage(buf, len, n, Head(len, clock, severity, funcname), msg);
  }

  /** format_msg, then the formatted line read back out of the buffer as
      the string the sinks are handed. */
  method FormatLine(buf: array<char>, severity: int, funcname: Option<string>, clock: Clock, msg: string)
    returns (line: string, endOfPrefix: nat)
    requires 17 <= buf.Length && ValidClock(clock) && IsSeverity(severity) && ValidText(funcname, msg)
    modifies buf
    ensures line == FormattedLine(buf.Length, clock, severity, funcname, msg)
    ensures endOfPrefix == |Prefix(buf.Length - 2, clock, severity)| <= |line|
  {
    endOfPrefix := FormatMsg(buf, severity, funcname, clock, msg);
    LineShape(buf.Length, clock, severity, funcname, msg);
    line := ReadCString(buf, FormattedLine(buf.Length, clock, severity, funcname, msg));
  }

  // ---------------------------------------------------------------------
  // The banner of log_tor_version

  /** The size of the buffer log_tor_version formats its banner in. */
  const BANNER_BUF_LEN: nat := 256

  /** "Tor <version> opening [new ]log file.\n" */
  function BannerMessage(version: string, isNew: bool): (m: string)
    ensures NoNul(version) ==> NoNul(m)
  {
    "Tor " + version + " opening " + (if isNew then "new " else "") + "log file.\n"
  }

  /** The banner as written: a LOG_NOTICE prefix, then as much of the
      message as fits before the NUL in the rest of the buffer. */
  function BannerLine(clock: Clock, version: string, isNew: bool): (line: string)
    requires ValidClock(clock)
    ensures |line| < BANNER_BUF_LEN
  {
    var p := Prefix(BANNER_BUF_LEN, clock, LOG_NOTICE);
    p + Clip(BannerMessage(version, isNew), BANNER_BUF_LEN - 1 - |p|)
  }

  /** Lines 100-104 of log_tor_version: the prefix, the message after it,
      and the C string fputs then reads back from the buffer. */
  method FormatBanner(clock: Clock, version: string, isNew: bool) returns (line: string)
    requires ValidClock(clock) && NoNul(version)
    ensures line == BannerLine(clock, version, isNew)
  {
    var buf := new char[BANNER_BUF_LEN];
    var n := LogPrefix(buf, BANNER_BUF_LEN, LOG_NOTICE, clock);
    var msg := BannerMessage(version, isNew);
    ghost var p := Prefix(BANNER_BUF_LEN, clock, LOG_NOTICE);
    ghost var b0 := buf[..];
    var _ := Snprintf(buf, n, BANNER_BUF_LEN - n, msg);
    ghost var c := Clip(msg, BANNER_BUF_LEN - 1 - n);
    assert |p + c| == n + Kept(BANNER_BUF_LEN - n, msg) && buf[|p + c|] == '\0';
    assert forall k :: 0 <= k < |p + c| ==> buf[k] == (p + c)[k] by {
      forall k | 0 <= k < |p + c|
        ensures buf[k] == (p + c)[k]
      {
        if k < n {
          assert buf[k] == b0[k] == p[k];
        } else {
          assert buf[n + (k - n)] == msg[k - n];
        }
      }
    }
    assert NoNul(p + c) by {
      forall k | 0 <= k < |p + c|
        ensures (p + c)[k] != '\0'
      {
        if k >= |p| {
          assert (p + c)[k] == msg[k - |p|];
        }
      }
    }
    line := ReadCString(buf, p + c);
    assert p + c == BannerLine(clock, version, isNew);
  }

  /** When stamp, tag and message fit in the buffer, the banner is exactly
      their concatenation, and the message says whether the file is new. */
  lemma BannerLayout(clock: Clock, version: string, isNew: bool)
    requires ValidClock(clock)
    requires |clock.stamp| + |Tag(clock.usec, LOG_NOTICE)| + |BannerMessage(version, isNew)| < BANNER_BUF_LEN
    ensures BannerLine(clock, version, isNew) == clock.stamp + Tag(clock.usec, LOG_NOTICE) + BannerMessage(version, isNew)
    ensures var m := BannerMessage(version, isNew);
      (isNew ==> m == "Tor " + version + " opening new log file.\n") &&
      (!isNew ==> m == "Tor " + version + " opening log file.\n")
  {
    var p := Prefix(BANNER_BUF_LEN, clock, LOG_NOTICE);
    assert p == clock.stamp + Tag(clock.usec, LOG_NOTICE);
  }
}
