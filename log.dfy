/** The logger's state in trunk/src/common/log.c: the list `logfiles` and
    the counter `syslog_count`, with the operations that add sinks, hand a
    message to them, rotate them and close them. */
module Log {
  import opened Wrappers
  import opened Severity
  import opened Format
  import opened Sinks

  /** The size of the buffer logv formats a message in. */
  const LOGV_BUF_LEN: nat := 10024

  /** The registry of sinks. Calls into the C library (fputs, fclose,
      syslog, openlog, closelog, callbacks) are recorded in `effects`; what
      they report back (a failed write, a failed reopen, an empty file)
      arrives as arguments. */
  class Registry {
    /** `logfiles`, head first. */
    var sinks: seq<Sink>
    /** `syslog_count` */
    var syslogCount: int
    /** The id the next sink record gets, standing for a fresh address. */
    var nextId: nat
    /** The calls made so far, oldest first. */
    var effects: seq<Effect>

    ghost predicate Valid()
      reads this
    {
      Consistent(sinks, syslogCount, nextId)
    }

    /** The state before any sink is added. */
    constructor ()
      ensures Valid() && sinks == [] && syslogCount == 0 && effects == []
    {
      sinks := [];
      syslogCount := 0;
      nextId := 0;
      effects := [];
    }

    /** `add_stream_log`: a sink for `stream` (which may be NULL) at the
        head of the list. */
    method AddStreamLog(loglevelMin: int, loglevelMax: int, name: string, stream: Option<Handle>)
      requires Valid()
      modifies this`sinks, this`nextId
      ensures Valid()
      ensures sinks == [Sink(old(nextId), name, stream, false, loglevelMin, loglevelMax, false, false, None)] + old(sinks)
      ensures nextId == old(nextId) + 1
    {
      var lf := Sink(nextId, name, stream, false, loglevelMin, loglevelMax, false, false, None);
      PrependKeepsConsistent(lf, sinks, syslogCount, nextId);
      sinks := [lf] + sinks;
      nextId := nextId + 1;
    }

    /** `add_temp_log`: a temporary sink on stdout for INFO up to ERR. */
    method AddTempLog()
      requires Valid()
      modifies this`sinks, this`nextId
      ensures Valid()
      ensures sinks == [Sink(old(nextId), "<temp>", Some(STDOUT), false, LOG_INFO, LOG_ERR, true, false, None)] + old(sinks)
      ensures nextId == old(nextId) + 1
    {
      AddStreamLog(LOG_INFO, LOG_ERR, "<temp>", Some(STDOUT));
      var lf := sinks[0].(isTemporary := true);
      PrependKeepsConsistent(lf, old(sinks), syslogCount, old(nextId));
      sinks := [lf] + sinks[1..];
    }

    /** `add_callback_log`: a sink that hands messages to `cb`; always 0. */
    method AddCallbackLog(loglevelMin: int, loglevelMax: int, cb: Callback) returns (r: int)
      requires Valid()
      modifies this`sinks, this`nextId
      ensures Valid() && r == 0
      ensures sinks == [Sink(old(nextId), "<callback>", None, false, loglevelMin, loglevelMax, false, false, Some(cb))] + old(sinks)
      ensures nextId == old(nextId) + 1
    {
      var lf := Sink(nextId, "<callback>", None, false, loglevelMin, loglevelMax, false, false, Some(cb));
      PrependKeepsConsistent(lf, sinks, syslogCount, nextId);
      sinks := [lf] + sinks;
      nextId := nextId + 1;
      return 0;
    }

    /** `add_file_log`: -1 and no change when fopen fails; otherwise a
        sink owning the new stream, whose banner is written at once. */
    method AddFileLog(loglevelMin: int, loglevelMax: int, filename: string, openResult: Option<Opened>,
                      clock: Clock, version: string) returns (r: int)
      requires Valid() && ValidClock(clock) && NoNul(version)
      modifies this`sinks, this`nextId, this`effects
      ensures Valid()
      ensures openResult.None? ==> r == -1 && sinks == old(sinks) && nextId == old(nextId) && effects == old(effects)
      ensures openResult.Some? ==> (
        r == 0 && nextId == old(nextId) + 1 &&
        sinks == [Sink(old(nextId), filename, Some(openResult.value.handle), true, loglevelMin, loglevelMax, false, false, None)] + old(sinks) &&
        effects == old(effects) + [Fputs(openResult.value.handle, BannerLine(clock, version, openResult.value.atStart))])
    {
      if openResult.None? {
        return -1;
      }
      AddStreamLog(loglevelMin, loglevelMax, filename, Some(openResult.value.handle));
      var lf := sinks[0].(needsClose := true);
      PrependKeepsConsistent(lf, old(sinks), syslogCount, old(nextId));
      sinks := [lf] + sinks[1..];
      LogTorVersion(lf, false, openResult.value.atStart, clock, version);
      return 0;
    }

    /** `add_syslog_log`: a syslog sink; the first one opens the syslog
        connection. Always 0. */
    method AddSyslogLog(loglevelMin: int, loglevelMax: int) returns (r: int)
      requires Valid()
      modifies this`sinks, this`nextId, this`syslogCount, this`effects
      ensures Valid() && r == 0
      ensures sinks == [Sink(old(nextId), "<syslog>", None, false, loglevelMin, loglevelMax, false, true, None)] + old(sinks)
      ensures nextId == old(nextId) + 1 && syslogCount == old(syslogCount) + 1
      ensures effects == old(effects) + if old(syslogCount) == 0 then [Openlog] else []
    {
      if syslogCount == 0 {
        effects := effects + [Openlog];
      }
      var lf := Sink(nextId, "<syslog>", None, false, loglevelMin, loglevelMax, false, true, None);
      PrependKeepsConsistent(lf, sinks, syslogCount, nextId);
      syslogCount := syslogCount + 1;
      sinks := [lf] + sinks;
      nextId := nextId + 1;
      return 0;
    }

    /** `log_tor_version`: the banner, when BannerFor says so. `atStart`
        is what ftello reports for the sink's stream. */
    method LogTorVersion(lf: Sink, reset: bool, atStart: bool, clock: Clock, version: string)
      requires WellFormed(lf) && ValidClock(clock) && NoNul(version)
      modifies this`effects
      ensures effects == old(effects) + BannerEffects(lf, reset, atStart, clock, version)
    {
      if !lf.needsClose {
        return;
      }
      if lf.isTemporary {
        return;
      }
      if reset && !atStart {
        return;
      }
      var line := FormatBanner(clock, version, atStart);
      effects := effects + [Fputs(lf.file.value, line)];
    }

    /** `delete_log`: unlinks the sink with id `victim`, which must be in
        the list, without closing it. */
    method DeleteLog(victim: nat)
      requires exists j :: 0 <= j < |sinks| && sinks[j].id == victim
      modifies this`sinks
      ensures var k := IndexOfId(old(sinks), victim);
        sinks == old(sinks)[..k] + old(sinks)[k + 1..]
    {
      var i := 0;
      while sinks[i].id != victim
        invariant i < |sinks|
        invariant forall j :: 0 <= j < i ==> sinks[j].id != victim
        invariant exists j :: i <= j < |sinks| && sinks[j].id == victim
        decreases |sinks| - i
      {
        i := i + 1;
      }
      sinks := sinks[..i] + sinks[i + 1..];
    }

    /** `close_log`: closes an owned stream, or drops a syslog sink from
        the count and closes the connection with the last one. */
    method CloseLog(lf: Sink)
      modifies this`syslogCount, this`effects
      ensures syslogCount == CountAfterClose(lf, old(syslogCount))
      ensures effects == old(effects) + CloseEffects(lf, old(syslogCount))
    {
      if lf.needsClose && lf.file.Some? {
        effects := effects + [Fclose(lf.file.value)];
      } else if lf.isSyslog {
        syslogCount := syslogCount - 1;
        if syslogCount == 0 {
          effects := effects + [Closelog];
        }
      }
    }

    /** `close_logs`: closes every sink, head first, and empties the list. */
    method CloseLogs()
      requires Valid()
      modifies this`sinks, this`syslogCount, this`effects
      ensures Valid() && sinks == [] && syslogCount == 0
      ensures effects == old(effects) + ClosingEffects(old(sinks), old(syslogCount))
    {
      ghost var orig := sinks;
      ClosingCountsSyslogSinks(orig, syslogCount);
      while sinks != []
        invariant CountAfterClosing(sinks, syslogCount) == CountAfterClosing(orig, old(syslogCount))
        invariant effects + ClosingEffects(sinks, syslogCount) == old(effects) + ClosingEffects(orig, old(syslogCount))
        decreases |sinks|
      {
        var victim := sinks[0];
        ghost var e0, c0 := effects, syslogCount;
        ghost var rest := ClosingEffects(sinks[1..], CountAfterClose(victim, c0));
        sinks := sinks[1..];
        CloseLog(victim);
        AppendAssoc(e0, CloseEffects(victim, c0), rest);
      }
    }

    /** `close_temp_logs`: closes and unlinks the temporary sinks, keeping
        the others in their order. */
    method CloseTempLogs()
      requires Valid()
      modifies this`sinks, this`syslogCount, this`effects
      ensures Valid()
      ensures sinks == Permanents(old(sinks))
      ensures syslogCount == SyslogSinks(sinks)
      ensures effects == old(effects) + ClosingEffects(Temporaries(old(sinks)), old(syslogCount))
    {
      ghost var orig := sinks;
      CloseTempKeepsConsistent(orig, syslogCount, nextId);
      ghost var done, todo := [], sinks;
      var i := 0;
      while i < |sinks|
        invariant sinks == done + todo && i == |done|
        invariant done + Permanents(todo) == Permanents(orig)
        invariant CountAfterClosing(Temporaries(todo), syslogCount) == CountAfterClosing(Temporaries(orig), old(syslogCount))
        invariant effects + ClosingEffects(Temporaries(todo), syslogCount) == old(effects) + ClosingEffects(Temporaries(orig), old(syslogCount))
        decreases |todo|
      {
        ghost var done0, todo0, c0, e0 := done, todo, syslogCount, effects;
        ghost var lf := todo0[0];
        assert sinks[i] == lf by { Splice(done0, todo0, lf); }
        CloseTempStep(done0, todo0, orig, c0, e0, old(syslogCount), old(effects));
        var closed := CloseTempAt(i);
        if closed {
          todo := todo[1..];
        } else {
          done, todo := done + [lf], todo[1..];
          i := i + 1;
        }
        assert sinks == done + todo by { Splice(done0, todo0, lf); }
      }
    }

    /** One turn of close_temp_logs' walk: the sink at `i`, if temporary, is
        unlinked and closed; any other stays. `closed` says which. */
    method CloseTempAt(i: nat) returns (closed: bool)
      requires i < |sinks|
      modifies this`sinks, this`syslogCount, this`effects
      ensures closed == old(sinks)[i].isTemporary
      ensures closed ==> sinks == old(sinks)[..i] + old(sinks)[i + 1..]
      ensures closed ==> syslogCount == CountAfterClose(old(sinks)[i], old(syslogCount))
      ensures closed ==> effects == old(effects) + CloseEffects(old(sinks)[i], old(syslogCount))
      ensures !closed ==> sinks == old(sinks) && syslogCount == old(syslogCount) && effects == old(effects)
    {
      var lf := sinks[i];
      closed := lf.isTemporary;
      if closed {
        sinks := sinks[..i] + sinks[i + 1..];
        CloseLog(lf);
      }
    }

    /** `mark_logs_temp`: every sink becomes temporary. */
    method MarkLogsTemp()
      requires Valid()
      modifies this`sinks
      ensures Valid()
      ensures sinks == MarkedTemporary(old(sinks))
    {
      var i := 0;
      while i < |sinks|
        invariant 0 <= i <= |sinks| == |old(sinks)|
        invariant forall k :: 0 <= k < i ==> sinks[k] == old(sinks)[k].(isTemporary := true)
        invariant forall k :: i <= k < |sinks| ==> sinks[k] == old(sinks)[k]
      {
        sinks := sinks[i := sinks[i].(isTemporary := true)];
        i := i + 1;
      }
      assert sinks == MarkedTemporary(old(sinks));
      MarkKeepsConsistent(old(sinks), syslogCount, nextId);
    }

    /** `reset_log`: for a sink owning its stream, fclose and fopen again,
        then the banner if the reopened file is empty. -1 when either
        call fails, 0 otherwise. */
    method ResetLog(k: nat, closeFails: set<nat>, reopened: map<nat, Opened>, clock: Clock, version: string)
      returns (r: int)
      requires k < |sinks| && WellFormed(sinks[k]) && ValidClock(clock) && NoNul(version)
      modifies this`sinks, this`effects
      ensures r == if ReopenOk(old(sinks)[k], closeFails, reopened) then 0 else -1
      ensures sinks == old(sinks)[k := AfterReset(old(sinks)[k], closeFails, reopened)]
      ensures effects == old(effects) + ResetEffects(old(sinks)[k], closeFails, reopened, clock, version)
    {
      var lf := sinks[k];
      if lf.needsClose {
        effects := effects + [Fclose(lf.file.value)];
        if lf.id in closeFails {
          return -1;
        }
        if lf.id !in reopened {
          sinks := sinks[k := lf.(file := None)];
          return -1;
        }
        var h := reopened[lf.id];
        lf := lf.(file := Some(h.handle));
        sinks := sinks[k := lf];
        LogTorVersion(lf, true, h.atStart, clock, version);
      }
      return 0;
    }

    /** One turn of reset_logs' walk: reset_log on the sink at `i` and, when
        that fails, the sink unlinked. `kept` says whether it is still in
        the list. */
    method ResetAt(i: nat, closeFails: set<nat>, reopened: map<nat, Opened>, clock: Clock, version: string)
      returns (kept: bool)
      requires i < |sinks| && DistinctIds(sinks) && WellFormed(sinks[i]) && ValidClock(clock) && NoNul(version)
      modifies this`sinks, this`effects
      ensures kept == ReopenOk(old(sinks)[i], closeFails, reopened)
      ensures kept ==> sinks == old(sinks)[i := AfterReset(old(sinks)[i], closeFails, reopened)]
      ensures !kept ==> sinks == old(sinks)[..i] + old(sinks)[i + 1..]
      ensures effects == old(effects) + ResetEffects(old(sinks)[i], closeFails, reopened, clock, version)
      ensures DistinctIds(sinks)
    {
      ghost var after := AfterReset(sinks[i], closeFails, reopened);
      ReplaceKeepsDistinct(sinks, i, after);
      var r := ResetLog(i, closeFails, reopened, clock, version);
      kept := r == 0;
      if !kept {
        RemoveAtKeeps(sinks, i, nextId);
        IndexOfDistinct(sinks, i);
        DeleteLog(sinks[i].id);
      }
    }

    /** `reset_logs`: resets every sink and unlinks those whose reset
        failed. */
    method ResetLogs(closeFails: set<nat>, reopened: map<nat, Opened>, clock: Clock, version: string)
      requires Valid() && ValidClock(clock) && NoNul(version)
      modifies this`sinks, this`effects
      ensures Valid()
      ensures sinks == Rotated(old(sinks), closeFails, reopened)
      ensures effects == old(effects) + RotationEffects(old(sinks), closeFails, reopened, clock, version)
    {
      ghost var orig := sinks;
      ghost var done, todo := [], sinks;
      var i := 0;
      while i < |sinks|
        invariant sinks == done + todo && i == |done|
        invariant done + Rotated(todo, closeFails, reopened) == Rotated(orig, closeFails, reopened)
        invariant effects + RotationEffects(todo, closeFails, reopened, clock, version)
          == old(effects) + RotationEffects(orig, closeFails, reopened, clock, version)
        invariant DistinctIds(sinks) && AllWellFormed(todo)
        decreases |todo|
      {
        ghost var done0, todo0, e0 := done, todo, effects;
        ghost var lf := todo0[0];
        ghost var after := AfterReset(lf, closeFails, reopened);
        assert sinks[i] == lf && WellFormed(lf) && AllWellFormed(todo0[1..]) by { Splice(done0, todo0, after); }
        var kept := ResetAt(i, closeFails, reopened, clock, version);
        todo := todo[1..];
        ghost var rest := RotationEffects(todo, closeFails, reopened, clock, version);
        assert effects + rest == old(effects) + RotationEffects(orig, closeFails, reopened, clock, version) by {
          AppendAssoc(e0, ResetEffects(lf, closeFails, reopened, clock, version), rest);
        }
        if kept {
          done := done + [after];
          i := i + 1;
          assert sinks == done + todo by {
            Splice(done0, todo0, after);
            AppendAssoc(done0, [after], todo);
          }
        } else {
          assert sinks == done + todo by { Splice(done0, todo0, after); }
        }
        assert done + Rotated(todo, closeFails, reopened) == Rotated(orig, closeFails, reopened) by {
          RotationStep(done0, todo0, closeFails, reopened);
        }
      }
      assert sinks == Rotated(old(sinks), closeFails, reopened) by {
        assert todo == [] && done == sinks;
      }
      RotationKeepsConsistent(old(sinks), old(syslogCount), old(nextId), closeFails, reopened);
    }

    /** What logv does for the sink at `i` once it is known to receive the
        message: syslog and callbacks get the text after the prefix, a
        stream the whole line; a stream whose fputs or fflush fails (its id
        is in `failing`) is unlinked without being closed. `kept` says
        whether the sink is still in the list. */
    method Deliver(i: nat, severity: int, line: string, endOfPrefix: nat, failing: set<nat>) returns (kept: bool)
      requires i < |sinks| && DistinctIds(sinks) && Receives(sinks[i], severity) && endOfPrefix <= |line|
      modifies this`sinks, this`effects
      ensures effects == old(effects) + Delivery(old(sinks)[i], severity, line, endOfPrefix)
      ensures kept == Survives(severity, failing)(old(sinks)[i])
      ensures kept ==> sinks == old(sinks)
      ensures !kept ==> sinks == old(sinks)[..i] + old(sinks)[i + 1..]
      ensures DistinctIds(sinks)
    {
      var lf := sinks[i];
      kept := true;
      if lf.isSyslog {
        effects := effects + [SyslogSend(severity, line[endOfPrefix..])];
      } else if lf.callback.Some? {
        effects := effects + [Invoke(lf.callback.value, severity, line[endOfPrefix..])];
      } else {
        effects := effects + [Fputs(lf.file.value, line)];
        if lf.id in failing {
          RemoveAtKeeps(sinks, i, nextId);
          IndexOfDistinct(sinks, i);
          DeleteLog(lf.id);
          kept := false;
        }
      }
    }

    /** The walk of logv from the first sink that receives the message,
        with the message formatted: every receiving sink from `start` on
        gets the line, and the streams that fail are unlinked. */
    method DispatchFrom(start: nat, severity: int, line: string, endOfPrefix: nat, failing: set<nat>)
      requires start <= |sinks| && DistinctIds(sinks) && endOfPrefix <= |line|
      modifies this`sinks, this`effects
      ensures sinks == old(sinks)[..start] + Dispatched(old(sinks)[start..], severity, failing)
      ensures effects == old(effects) + Deliveries(old(sinks)[start..], severity, line, endOfPrefix)
    {
      ghost var keep := Survives(severity, failing);
      ghost var done, todo := sinks[..start], sinks[start..];
      assert sinks == done + todo;
      assert effects + Deliveries(todo, severity, line, endOfPrefix) == old(effects) + Deliveries(old(sinks)[start..], severity, line, endOfPrefix);
      var i := start;
      while i < |sinks|
        invariant sinks == done + todo && i == |done|
        invariant done + Filter(todo, keep) == old(sinks)[..start] + Dispatched(old(sinks)[start..], severity, failing)
        invariant effects + Deliveries(todo, severity, line, endOfPrefix)
          == old(effects) + Deliveries(old(sinks)[start..], severity, line, endOfPrefix)
        invariant DistinctIds(sinks)
        decreases |todo|
      {
        ghost var done0, todo0, e0 := done, todo, effects;
        var lf := sinks[i];
        assert lf == todo0[0] by { Splice(done0, todo0, lf); }
        var kept := true;
        if Receives(lf, severity) {
          kept := Deliver(i, severity, line, endOfPrefix, failing);
        } else {
          assert e0 + [] == e0;
        }
        todo := todo[1..];
        ghost var rest := Deliveries(todo, severity, line, endOfPrefix);
        assert effects + rest == old(effects) + Deliveries(old(sinks)[start..], severity, line, endOfPrefix) by {
          AppendAssoc(e0, Delivery(lf, severity, line, endOfPrefix), rest);
        }
        if kept {
          done := done + [lf];
          i := i + 1;
          assert sinks == done + todo by { Splice(done0, todo0, lf); }
        } else {
          assert sinks == done + todo by { Splice(done0, todo0, lf); }
        }
        assert done + Filter(todo, keep) == old(sinks)[..start] + Dispatched(old(sinks)[start..], severity, failing) by {
          FilterStep(done0, todo0, keep);
        }
      }
    }

    /** `logv`: hands one message to every sink whose band holds its
        severity and that has somewhere to send it, and unlinks the streams
        that fail. The message is formatted once, when the walk reaches the
        first sink that receives it; the walk is written as the run up to
        that sink and then DispatchFrom. */
    method Logv(severity: int, funcname: Option<string>, msg: string, clock: Clock, failing: set<nat>)
      requires Valid() && IsSeverity(severity) && ValidClock(clock) && ValidText(funcname, msg)
      modifies this`sinks, this`effects
      ensures Valid()
      ensures sinks == Dispatched(old(sinks), severity, failing)
      ensures effects == old(effects) + Deliveries(old(sinks), severity,
        FormattedLine(LOGV_BUF_LEN, clock, severity, funcname, msg), |Prefix(LOGV_BUF_LEN - 2, clock, severity)|)
    {
      var buf := new char[LOGV_BUF_LEN];
      var i := 0;
      while i < |sinks| && !Receives(sinks[i], severity)
        invariant i <= |sinks|
        invariant forall j :: 0 <= j < i ==> !Receives(sinks[j], severity)
        decreases |sinks| - i
      {
        i := i + 1;
      }
      ghost var theLine := FormattedLine(LOGV_BUF_LEN, clock, severity, funcname, msg);
      ghost var eop := |Prefix(LOGV_BUF_LEN - 2, clock, severity)|;
      PassOverNonReceivers(sinks, i, severity, failing, theLine, eop);
      if i < |sinks| {
        var line, endOfPrefix := FormatLine(buf, severity, funcname, clock, msg);
        DispatchFrom(i, severity, line, endOfPrefix, failing);
      } else {
        assert sinks[i..] == [];
      }
      DispatchKeepsConsistent(old(sinks), old(syslogCount), old(nextId), severity, failing);
    }

    /** `_log`: logv without a function name. */
    method Log(severity: int, msg: string, clock: Clock, failing: set<nat>)
      requires Valid() && IsSeverity(severity) && ValidClock(clock) && NoNul(msg)
      modifies this`sinks, this`effects
      ensures Valid()
      ensures sinks == Dispatched(old(sinks), severity, failing)
      ensures effects == old(effects) + Deliveries(old(sinks), severity,
        FormattedLine(LOGV_BUF_LEN, clock, severity, None, msg), |Prefix(LOGV_BUF_LEN - 2, clock, severity)|)
    {
      Logv(severity, None, msg, clock, failing);
    }

    /** `_log_fn`: logv with the name of the calling function. */
    method LogFn(severity: int, fn: string, msg: string, clock: Clock, failing: set<nat>)
      requires Valid() && IsSeverity(severity) && ValidClock(clock) && ValidText(Some(fn), msg)
      modifies this`sinks, this`effects
      ensures Valid()
      ensures sinks == Dispatched(old(sinks), severity, failing)
      ensures effects == old(effects) + Deliveries(old(sinks), severity,
        FormattedLine(LOGV_BUF_LEN, clock, severity, Some(fn), msg), |Prefix(LOGV_BUF_LEN - 2, clock, severity)|)
    {
      Logv(severity, Some(fn), msg, clock, failing);
    }

    /** `get_min_log_level`: the least critical severity any sink still
        accepts, and LOG_ERR when there is none below it. */
    method GetMinLogLevel() returns (min: int)
      ensures min == LeastCriticalLevel(sinks)
      ensures LOG_ERR <= min && forall k :: 0 <= k < |sinks| ==> sinks[k].loglevel <= min
      ensures min == LOG_ERR || exists k :: 0 <= k < |sinks| && sinks[k].loglevel == min
    {
      min := LOG_ERR;
      var i := 0;
      while i < |sinks|
        invariant 0 <= i <= |sinks|
        invariant min == LeastCriticalLevel(sinks[..i])
      {
        assert sinks[..i + 1][..i] == sinks[..i];
        if sinks[i].loglevel > min {
          min := sinks[i].loglevel;
        }
        i := i + 1;
      }
      assert sinks[..i] == sinks;
    }
  }
}
