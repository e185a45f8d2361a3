# Tor's logger (`log.c`) in Dafny

This project models the logging core of Tor, `trunk/src/common/log.c`.

## Entities

- **Sinks.** The logger keeps a linked list of sinks, called `logfile_t`.
  - A sink is a stream, a file it opened itself, the system log or a callback.
  - Each sink accepts a band of severities, from `max_loglevel` (most critical) to `loglevel` (least critical).
  - A sink may be marked temporary.
- **The syslog counter.** The logger counts its syslog sinks. The first one opens the syslog connection and the last one to close closes it.
- **Dispatch.** `logv` formats each message once, into a fixed 10024-char buffer, at the first sink that receives it.
  - Streams get the whole line: timestamp, `.mmm [severity] ` tag, optional `func(): `, message, newline.
  - Syslog and callbacks get the text after the prefix.
  - A stream whose `fputs`/`fflush` fails is unlinked on the spot.
- **List maintenance.** The other operations add sinks at the head of the list, close every sink or only the temporary ones, mark every sink temporary, and rotate files (close, reopen, re-banner, and drop the ones that fail).
- **Parsing.** Severities are parsed from and printed to their lowercase names.

## Modules

- `Severity` (severity.dfy) covers the severity numbers, `sev_to_string`, `parse_log_level` and the band test.
- `Format` (format.dfy) models `_log_prefix`, `format_msg` and the banner of `log_tor_version`.
  - They are written as imperative code on a `char` array.
  - It includes the C primitives they call: `tor_snprintf`, `strlcpy`, `strftime` and `strlen`.
  - Each method is proved against a function that gives the resulting line as a string: `Prefix`, `Head`, `FormattedLine` and `BannerLine`.
- `Sinks` (sinks.dfy) holds the sink record and the list-level specification functions, with the lemmas about them.
  - Specification functions: `Dispatched`, `Deliveries`, `ClosingEffects`, `Permanents`, `Rotated`, `RotationEffects`, `LeastCriticalLevel`.
  - The lemmas prove the registry invariant is preserved, what survives each operation, and the order of survivors.
- `Log` (log.dfy) holds the class `Registry`.
  - Its fields are `logfiles` (as `sinks: seq<Sink>`) and `syslog_count`, plus two more:
    - `nextId`, which stands for fresh heap addresses;
    - `effects`, the trace of calls made into the C library: `fputs`, `fclose`, `syslog`, `openlog`, `closelog` and callbacks.
  - Every public function of log.c that uses the registry is a method there. `parse_log_level` and `log_level_to_string` touch no state, so they are functions in `Severity`.
  - Each method's `ensures` ties the new list and the new trace to the `Sinks` functions.
  - Every public method that changes the registry requires and keeps `Valid()`, and the constructor establishes it; `GetMinLogLevel` changes nothing and needs no invariant. The internal helpers (`DeleteLog`, `CloseLog`, `LogTorVersion`, `ResetLog`, `ResetAt`, `CloseTempAt`, `Deliver`, `DispatchFrom`) state only the part of the invariant their callers need. `Valid()` requires:
    - well-formed sinks;
    - distinct ids, all below `nextId`;
    - `syslog_count` equal to the number of syslog sinks.

## How the source maps into Dafny

- **Severity numbers.** They are the `<syslog.h>` values that log.h re-exports: ERR 3, WARN 4, NOTICE 5, INFO 6, DEBUG 7.
- **Outcomes the logger cannot decide.** They arrive as arguments:
  - which streams fail to write (`failing`);
  - which `fclose` calls fail (`closeFails`);
  - what `fopen` returns on reopening, and whether the file is empty (`reopened`, `openResult`).
- **Message text.** The text `tor_vsnprintf` renders arrives already rendered (`msg`).
- **Timestamps.** The clock (`strftime` rendering and microseconds) arrives as a `Clock` value.
- **Version.** `VERSION` arrives as a string.
- **The walk in logv.** It is written as two parts:
  - a loop that passes the sinks that do not receive the message;
  - `DispatchFrom`, which starts at the first receiving sink, where the C code formats.
  - `PassOverNonReceivers` proves the split walk equals the whole walk.
- **Truncation marker.** When a message is cut, the newline lands on the closing `]` of the "[...truncated]" marker. The model reproduces this as written (`Assemble`, `LineWhenTruncated`).

## Model

| member | source | states |
|---|---|---|
| Severity.SevToString | trunk/src/common/log.c:36-45 | every severity has a lowercase name of 3 to 6 letters |
| Severity.NamesDistinct | trunk/src/common/log.c:36-45 | no two severities' names match, even ignoring case |
| Severity.InBand | trunk/src/common/log.c:160-163 | the band test: a sink takes a severity from max_loglevel (most critical) to loglevel (least critical), so a band with max_loglevel above loglevel takes nothing; Receives builds on it |
| Severity.Lower | trunk/src/common/log.c:391-401 | strcasecmp's folding: the result is never an upper-case letter, and a char changes exactly when it is upper case |
| Severity.SameIgnoringCase | trunk/src/common/log.c:391-401 | strcasecmp(a, b) == 0: same length and equal after folding each char; its properties are ParseLogLevel's contract and ParseIgnoresCase |
| Severity.ParseLogLevel | trunk/src/common/log.c:390-402 | the result is -1 exactly when the text matches no severity name ignoring case; otherwise it is the severity whose name matches |
| Severity.ParseNameRoundTrip | trunk/src/common/log.c:390-407 | parsing a severity's name gives back that severity |
| Severity.ParseIgnoresCase | trunk/src/common/log.c:390-402 | names that differ only in letter case parse to the same result |
| Severity.LogLevelToString | trunk/src/common/log.c:404-407 | the name returned parses back to the level |
| Format.ThreeDigits | trunk/src/common/log.c:69-71 | "%.3ld" of a value below 1000 is three digits whose decimal value is that value |
| Format.Tag | trunk/src/common/log.c:69-71 | the ".mmm [name] " tag has no NUL and is 8 chars longer than the severity name |
| Format.TagReadsBack | trunk/src/common/log.c:69-71 | the tag is '.', three decimal digits that read back as the milliseconds, " [", the severity's name, which parses back to the severity, and "] " |
| Format.Prefix | trunk/src/common/log.c:57-76 | the prefix in a buffer of n chars is shorter than n and NUL-free |
| Format.Head | trunk/src/common/log.c:121-130 | shorter than the buffer, NUL-free, and starts with the whole prefix |
| Format.FormattedLine | trunk/src/common/log.c:112-143 | the line is at most bufLen - 2 chars and at least as long as the prefix; it starts with the prefix whenever the prefix is at most bufLen - 17 chars, so the truncation marker cannot reach it |
| Format.Assemble | trunk/src/common/log.c:132-141 | the line fits in len chars and is at least as long as the head. It starts with the whole head when head and message fit, or when the head ends before the marker's place; otherwise it starts with the head's first len - 15 chars |
| Format.Snprintf | trunk/src/common/log.c:69-73 | tor_snprintf returns the text's length when it fits with its NUL, else -1; it writes the part that fits, then a NUL, and a NUL in the last char of its window (as tor_vsnprintf does) |
| Format.CopyBounded | trunk/src/common/log.c:69-71 | the copy inside tor_snprintf and strlcpy: the chars that fit, then a NUL, and nothing else changes |
| Format.ReadCString | trunk/src/common/log.c:185 | the C string fputs and the callbacks read from the buffer, up to the first NUL, is the text written there |
| Format.Strlcpy | trunk/src/common/log.c:135-136 | strlcpy copies what fits plus a NUL and returns the source length |
| Format.Strftime | trunk/src/common/log.c:68 | strftime writes the stamp and returns its length when it fits, else returns 0 and writes nothing |
| Format.StrLen | trunk/src/common/log.c:127 | strlen returns the index of the first NUL |
| Format.LogPrefix | trunk/src/common/log.c:57-76 | `_log_prefix` leaves Prefix followed by a NUL in the buffer and returns its length; it is bufLen - 1 when the tag was cut |
| Format.WriteHead | trunk/src/common/log.c:121-130 | the buffer starts with Head plus a NUL; end_of_prefix is the prefix length |
| Format.MarkTruncated | trunk/src/common/log.c:135-136 | "[...truncated]" and its NUL occupy the last 15 of the first len chars; nothing else changes |
| Format.WriteMessage | trunk/src/common/log.c:132-141 | the buffer holds Assemble(head, msg) then a NUL; the returned index is where the newline went |
| Format.FormatMsg | trunk/src/common/log.c:112-143 | the buffer holds FormattedLine and its NUL within bufLen - 1 chars; the result is the prefix length |
| Format.FormatLine | trunk/src/common/log.c:169-173 | the string read back from the buffer is FormattedLine, and end_of_prefix lies within it |
| Format.LineShape | trunk/src/common/log.c:112-143 | every line is non-empty, NUL-free, ends in its newline and leaves room for its NUL. It is at least as long as the prefix, and starts with it when the prefix is at most bufLen - 17 chars |
| Format.LineStartsWithPrefix | trunk/src/common/log.c:107-122 | when the timestamp is at most bufLen - 31 chars, the prefix is exactly stamp + tag and the line starts with it, so end_of_prefix is where the message portion begins |
| Format.LineWhenTruncated | trunk/src/common/log.c:132-141 | a line too long for the buffer is bufLen - 3 chars: the start of head and message, then "[...truncated" with the newline in place of ']' |
| Format.LineLayout | trunk/src/common/log.c:112-143 | when everything fits, the line is stamp + tag + "func(): " + message + newline |
| Format.BannerMessage | trunk/src/common/log.c:102-103 | the banner text has no NUL when the version has none |
| Format.BannerLine | trunk/src/common/log.c:101-104 | the banner is shorter than its 256-char buffer |
| Format.FormatBanner | trunk/src/common/log.c:101-104 | the string fputs reads from the banner buffer is BannerLine |
| Format.BannerLayout | trunk/src/common/log.c:101-104 | when it fits, the banner is stamp + NOTICE tag + "Tor <version> opening [new ]log file.\n" |
| Sinks.IndexOfId | trunk/src/common/log.c:254 | the position found holds the id, and no earlier position does |
| Sinks.IndexOfDistinct | trunk/src/common/log.c:249-258 | with distinct ids, searching for a sink's id finds that sink |
| Sinks.PrependKeepsConsistent | trunk/src/common/log.c:299-300 | pushing a fresh sink on the head keeps the invariant, and the counter counts it if it is syslog |
| Sinks.RemoveAtKeeps | trunk/src/common/log.c:249-261 | unlinking one sink keeps ids distinct and sinks well formed, and lowers the syslog count exactly when that sink was syslog |
| Sinks.FilterMembers | trunk/src/common/log.c:329-339 | after unlinking, a sink remains exactly when it was present and is kept |
| Sinks.FilterAppend | trunk/src/common/log.c:329-339 | unlinking works piecewise, so survivors keep their order |
| Sinks.FilterDropsOne | trunk/src/common/log.c:185-190 | rejecting only the sink at k removes exactly that sink |
| Sinks.FilterDistinct | trunk/src/common/log.c:329-339 | unlinking keeps ids distinct |
| Sinks.FilterKeepsSyslogCount | trunk/src/common/log.c:185-190 | unlinking only non-syslog sinks keeps the number of syslog sinks |
| Sinks.FilterKeepsShape | trunk/src/common/log.c:329-339 | unlinking keeps the invariant apart from the counter |
| Sinks.Receives | trunk/src/common/log.c:160-167 | the two skip tests of logv: the severity is in the band and the sink has a stream, is syslog or has a callback; Delivery, Survives and PassOverNonReceivers are stated through it |
| Sinks.Deliveries | trunk/src/common/log.c:159-194 | the calls of a whole logv walk, in list order; its properties are DeliveriesShareOneLine and PassOverNonReceivers |
| Sinks.Survives | trunk/src/common/log.c:185-190 | a sink is unlinked by logv exactly when it receives, writes to a stream, and the write fails; it is the definition that DispatchDropsOnlyFailed and DispatchWithoutFailures characterise |
| Sinks.Dispatched | trunk/src/common/log.c:159-194 | the list logv leaves: the surviving sinks in order; its properties are DispatchDropsOnlyFailed, DispatchWithoutFailures, DispatchKeepsConsistent |
| Sinks.DeliveriesShareOneLine | trunk/src/common/log.c:169-184 | a dispatch calls out exactly when some sink receives the message; streams get the whole formatted line, syslog and callbacks the text after its prefix, at the message's severity |
| Sinks.Delivery | trunk/src/common/log.c:164-193 | a sink gets exactly one call when it receives the message and none otherwise: syslog and callback get the text after the prefix, a stream the whole line |
| Sinks.DispatchDropsOnlyFailed | trunk/src/common/log.c:185-190 | a failed write removes exactly the sink written to |
| Sinks.DispatchWithoutFailures | trunk/src/common/log.c:185-193 | when no write fails, the list is unchanged |
| Sinks.DispatchKeepsSyslogSinks | trunk/src/common/log.c:174-179 | dispatch never drops a syslog sink |
| Sinks.PassOverNonReceivers | trunk/src/common/log.c:159-167 | a run of non-receiving sinks gets nothing and survives, so the walk may start at the first receiver |
| Sinks.DispatchKeepsConsistent | trunk/src/common/log.c:159-194 | dispatch keeps the registry invariant |
| Sinks.CloseEffects | trunk/src/common/log.c:263-274 | close_log's calls for one sink: fclose of an owned open stream, else closelog when this syslog sink is the last one; its properties are ClosingCallsCloselogOnce, ClosingClosesOwnedStreams and ClosingClosesOnlyOwned |
| Sinks.CountAfterClose | trunk/src/common/log.c:263-274 | for a well-formed sink, close_log lowers the syslog counter by one exactly when the sink is syslog |
| Sinks.ClosingEffects | trunk/src/common/log.c:216-226 | the calls of close_log on each sink of a run in turn; its properties are ClosingCallsCloselogOnce, ClosingClosesOwnedStreams and ClosingClosesOnlyOwned |
| Sinks.ClosingCountsSyslogSinks | trunk/src/common/log.c:263-274 | closing sinks lowers the counter by the number of syslog sinks among them |
| Sinks.ClosingCallsCloselogOnce | trunk/src/common/log.c:267-272 | closelog is called once, exactly when the counter is used up, and otherwise never |
| Sinks.ClosingClosesOwnedStreams | trunk/src/common/log.c:265-266 | every owned stream among the closed sinks gets its fclose |
| Sinks.ClosingClosesOnlyOwned | trunk/src/common/log.c:265-266 | every fclose made while closing a run is of the stream of one of its sinks that has needs_close; the converse of ClosingClosesOwnedStreams |
| Sinks.Temporaries | trunk/src/common/log.c:330-335 | the sinks close_temp_logs closes, in order; TemporariesSplitSyslog and CloseTempKeepsConsistent are about it |
| Sinks.Permanents | trunk/src/common/log.c:336-337 | the sinks close_temp_logs keeps, in order; MarkThenCloseTemp and CloseTempKeepsConsistent are about it |
| Sinks.MarkedTemporary | trunk/src/common/log.c:343-348 | marking keeps the list's length |
| Sinks.MarkKeepsConsistent | trunk/src/common/log.c:343-348 | marking every sink temporary keeps the invariant |
| Sinks.TemporariesSplitSyslog | trunk/src/common/log.c:326-340 | the syslog sinks split between the closed and the kept sinks |
| Sinks.CloseTempKeepsConsistent | trunk/src/common/log.c:326-340 | closing the temporaries keeps the invariant; the counter loses exactly their syslog sinks |
| Sinks.CloseTempStep | trunk/src/common/log.c:329-339 | each turn of close_temp_logs keeps the walk on course: what is kept, the counter and the calls still add up to Permanents, CountAfterClosing and ClosingEffects of the whole list |
| Sinks.MarkThenCloseTemp | trunk/src/common/log.c:306-348 | mark, then add, then close_temp_logs leaves exactly the sinks added after the mark |
| Sinks.BannerFor | trunk/src/common/log.c:86-100 | whether log_tor_version writes and with which "new" flag; characterised by BannerRules |
| Sinks.BannerEffects | trunk/src/common/log.c:101-104 | the one fputs of BannerLine to the sink's stream when BannerFor allows it, nothing otherwise |
| Sinks.BannerRules | trunk/src/common/log.c:86-100 | a banner is written exactly for an owned, non-temporary file, and during a reset only into an empty file; "new" reflects emptiness |
| Sinks.ReopenOk | trunk/src/common/log.c:278-286 | reset_log returns 0 exactly for a sink without needs_close or one whose fclose and fopen both succeed |
| Sinks.AfterReset | trunk/src/common/log.c:276-287 | a reset keeps a sink's identity and kind, and keeps it well formed when the reopen succeeds |
| Sinks.Rotated | trunk/src/common/log.c:229-242 | the list reset_logs leaves, never longer than before; its properties are RotatedMembers, RotationKeepsPositions, RotationKeepsConsistent |
| Sinks.ResetEffects | trunk/src/common/log.c:278-284 | reset_log's calls for one sink: fclose of an owned stream, then the reset banner once the file reopened; see RotationBannersAreNew |
| Sinks.RotationEffects | trunk/src/common/log.c:229-242 | the calls of reset_logs, sink by sink in list order; RotationBannersAreNew is about it |
| Sinks.RotatedAppend | trunk/src/common/log.c:229-242 | rotation works piecewise along the list |
| Sinks.RotatedMembers | trunk/src/common/log.c:229-242 | what survives rotation is exactly the successfully reset sinks; sinks owning no stream always survive |
| Sinks.RotationKeepsPositions | trunk/src/common/log.c:229-242 | when every reopen succeeds, each sink keeps its position |
| Sinks.RotationBannersAreNew | trunk/src/common/log.c:97-103 | rotation only calls fclose and writes banners that say "new" |
| Sinks.RotationKeepsSyslogSinks | trunk/src/common/log.c:229-242 | rotation never drops a syslog sink |
| Sinks.RotationKeepsDistinct | trunk/src/common/log.c:229-242 | rotation keeps ids distinct |
| Sinks.RotationKeepsConsistent | trunk/src/common/log.c:229-242 | rotation keeps the registry invariant, counter unchanged |
| Sinks.LeastCriticalLevel | trunk/src/common/log.c:409-418 | the result is at least LOG_ERR and every sink's loglevel is at most it; it is LOG_ERR or some sink's loglevel |
| Log.Registry.constructor | trunk/src/common/log.c:47-51 | the registry starts valid, with no sinks and a zero counter |
| Log.Registry.AddStreamLog | trunk/src/common/log.c:291-301 | a fresh stream sink with the given band is at the head; the invariant holds |
| Log.Registry.AddTempLog | trunk/src/common/log.c:306-310 | a fresh temporary stdout sink for INFO..ERR is at the head |
| Log.Registry.AddCallbackLog | trunk/src/common/log.c:312-323 | a fresh callback sink is at the head; the result is 0 |
| Log.Registry.AddFileLog | trunk/src/common/log.c:355-364 | on failed fopen: -1 and nothing changes. Otherwise 0, an owned-stream sink at the head, and its banner written |
| Log.Registry.AddSyslogLog | trunk/src/common/log.c:370-385 | a syslog sink at the head, the counter incremented, and openlog only for the first one |
| Log.Registry.LogTorVersion | trunk/src/common/log.c:80-105 | the calls made are exactly the banner BannerFor allows |
| Log.Registry.DeleteLog | trunk/src/common/log.c:249-261 | exactly the sink with the victim's id is unlinked; the others keep their order |
| Log.Registry.CloseLog | trunk/src/common/log.c:263-274 | fclose for an owned stream; otherwise a syslog sink decrements the counter, with closelog when it hits 0 |
| Log.Registry.CloseLogs | trunk/src/common/log.c:216-226 | the list is empty, the counter is 0, and every sink was closed head first |
| Log.Registry.CloseTempLogs | trunk/src/common/log.c:326-340 | exactly the non-temporary sinks remain, in order; the temporaries were closed in order; the counter counts the remaining syslog sinks |
| Log.Registry.CloseTempAt | trunk/src/common/log.c:330-337 | one turn of the walk: a temporary sink is unlinked and closed, and any other leaves list, counter and calls unchanged |
| Log.Registry.MarkLogsTemp | trunk/src/common/log.c:343-348 | every sink is temporary and otherwise unchanged |
| Log.Registry.ResetLog | trunk/src/common/log.c:276-287 | the result is 0 exactly when the reset succeeds; only that sink's stream changes; fclose and the reset banner are recorded |
| Log.Registry.ResetAt | trunk/src/common/log.c:232-240 | a sink whose reset fails is unlinked; otherwise it is replaced by its reset form |
| Log.Registry.ResetLogs | trunk/src/common/log.c:229-242 | the list becomes Rotated, the calls are RotationEffects in list order, and the invariant holds |
| Log.Registry.Deliver | trunk/src/common/log.c:174-193 | one receiving sink gets its delivery; it stays exactly unless it is a stream whose write fails, in which case it alone is unlinked |
| Log.Registry.DispatchFrom | trunk/src/common/log.c:159-194 | from the first receiver on, the list becomes Dispatched and the calls are Deliveries in list order |
| Log.Registry.Logv | trunk/src/common/log.c:149-195 | the list becomes Dispatched; the calls are Deliveries of the one FormattedLine with its prefix end; the invariant holds |
| Log.Registry.Log | trunk/src/common/log.c:197-204 | logv without a function name |
| Log.Registry.LogFn | trunk/src/common/log.c:206-213 | logv with the caller's function name in the line |
| Log.Registry.GetMinLogLevel | trunk/src/common/log.c:409-418 | the result is the largest loglevel among the sinks, at least LOG_ERR |

## Left out

- Log.Registry.Logv: requires a valid severity for every call. In C, an invalid severity only trips the assertion in `sev_to_string` when some sink receives the message; with no receiving sink the call does nothing.
- Log.Registry.Log: requires a valid severity for every call, for the same reason as Log.Registry.Logv, which it calls.
- Log.Registry.LogFn: requires a valid severity for every call, for the same reason as Log.Registry.Logv, which it calls.
- log.h is not part of this model. The severity numbers are the `<syslog.h>` ones it re-exports.
- Varargs formatting is not modelled. `tor_vsnprintf`'s rendering of the format string arrives as the text `msg`.
- The `assert(format)` check on a NULL format string is not modelled.
- Time is not read. `tor_gettimeofday`, `localtime` and `strftime`'s rendering arrive as a `Clock` argument.
- Log.Registry.ResetLogs: uses one clock for every banner it writes. In C each banner reads the time again.
- File and system I/O is not performed:
  - the calls `fputs`, `fclose`, `syslog`, `openlog`, `closelog` and callbacks are recorded in the `effects` trace;
  - `fflush`, `fopen` and `ftello` are not recorded; only their outcomes arrive, as arguments (`failing`, `reopened`, `openResult`), and so does the outcome of `fclose` (`closeFails`);
  - a failed `fputs` and a failed `fflush` are one outcome;
  - `openlog`'s arguments ("Tor", LOG_NDELAY, LOG_DAEMON) are not recorded.
- Sinks.ClosingClosesOnlyOwned: speaks of sinks, not of handles. The handles that `fopen` returns (`openResult`, `reopened`) are not required to be fresh, and `Valid()` does not keep an owned handle apart from the other sinks' handles, so the model does not show that a caller's stream such as stdout stays open when closing.
- Memory management is not modelled:
  - `tor_malloc_zero`, `tor_strdup` and `tor_free` do not appear;
  - sink ids stand for addresses;
  - the linked list is a sequence, so no `next` pointer can alias.
- `VERSION` is an argument rather than a build constant.
- Texts are assumed NUL-free (`NoNul`, `ValidText`, and the requires of `ParseLogLevel`), since a C string cannot contain a NUL.
- Format.FormattedLine: promises that the line starts with the whole prefix only when the prefix leaves room for the truncation marker (at most bufLen - 17 chars). A longer prefix is overwritten by the marker, as `format_msg` does. `LineStartsWithPrefix` shows the condition holds whenever the timestamp is at most bufLen - 31 chars, so for logv's buffer the promise of log.c:107-111 holds for every real timestamp.
- `HAVE_SYSLOG_H` is assumed defined: `syslog_count`, `add_syslog_log` and the `syslog` calls are always present.
- `HAVE_FTELLO` is not modelled. Whether the file is empty arrives as an argument, whichever of `ftello`/`ftell` would report it.
