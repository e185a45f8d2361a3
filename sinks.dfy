/** The sink records of trunk/src/common/log.c (`logfile_t`) and the
    functions that say, on whole sequences of them, what each registry
    operation does: which sinks a dispatch hands the line to and which it
    drops, what closing a run of sinks emits, what rotation keeps. */
module Sinks {
  import opened Wrappers
  import opened Severity
  import opened Format

  /** A FILE* stream. */
  type Handle = nat
  /** The identity of a `log_callback` function pointer. */
  type Callback = nat

  /** The stream the C library calls stdout. */
  const STDOUT: Handle := 1

  /** One `logfile_t`. `id` stands for its address: the registry never
      holds two records with the same id. */
  datatype Sink = Sink(
    id: nat,
    filename: string,
    file: Option<Handle>,
    needsClose: bool,
    loglevel: int,      // least critical severity still sent
    maxLoglevel: int,   // most critical severity still sent
    isTemporary: bool,
    isSyslog: bool,
    callback: Option<Callback>)

  /** What fopen followed by ftello reports: the new stream and whether it
      is at offset 0, that is, whether the file is empty. */
  datatype Opened = Opened(handle: Handle, atStart: bool)

  /** The calls log.c makes into the outside world, in the order made. */
  datatype Effect =
    | Openlog
    | Closelog
    | SyslogSend(priority: int, text: string)
    | Invoke(callback: Callback, severity: int, text: string)
    | Fputs(handle: Handle, text: string)
    | Fclose(handle: Handle)

  /** A sink that owns its stream has one, and is not a syslog sink. */
  predicate WellFormed(s: Sink) {
    s.needsClose ==> s.file.Some? && !s.isSyslog
  }

  predicate AllWellFormed(ss: seq<Sink>) {
    forall k :: 0 <= k < |ss| ==> WellFormed(ss[k])
  }

  predicate DistinctIds(ss: seq<Sink>) {
    forall i, j :: 0 <= i < j < |ss| ==> ss[i].id != ss[j].id
  }

  /** The position of the first sink with the given id. */
  function IndexOfId(ss: seq<Sink>, id: nat): (k: nat)
    requires exists j :: 0 <= j < |ss| && ss[j].id == id
    ensures k < |ss| && ss[k].id == id
    ensures forall j :: 0 <= j < k ==> ss[j].id != id
  {
    if ss[0].id == id then 0 else 1 + IndexOfId(ss[1..], id)
  }

  /** In a sequence with distinct ids, a sink's id leads back to it. */
  lemma IndexOfDistinct(ss: seq<Sink>, k: nat)
    requires DistinctIds(ss) && k < |ss|
    ensures IndexOfId(ss, ss[k].id) == k
  {
    var i := IndexOfId(ss, ss[k].id);
  }

  predicate IdsBelow(ss: seq<Sink>, nextId: nat) {
    forall k :: 0 <= k < |ss| ==> ss[k].id < nextId
  }

  /** The invariant of the registry: well-formed sinks with distinct ids,
      all handed out before `nextId`, and a syslog counter equal to the
      number of syslog sinks. */
  predicate Consistent(ss: seq<Sink>, syslogCount: int, nextId: nat) {
    AllWellFormed(ss) && DistinctIds(ss) && IdsBelow(ss, nextId) && syslogCount == SyslogSinks(ss)
  }


  /** Prepending a fresh sink, as every add_*_log does, keeps the invariant
      once the counter counts it. */
  lemma PrependKeepsConsistent(x: Sink, ss: seq<Sink>, syslogCount: int, nextId: nat)
    requires Consistent(ss, syslogCount, nextId) && WellFormed(x) && x.id == nextId
    ensures Consistent([x] + ss, syslogCount + (if x.isSyslog then 1 else 0), nextId + 1)
  {
    assert ([x] + ss)[1..] == ss;
    var r := [x] + ss;
    forall i, j | 0 <= i < j < |r|
      ensures r[i].id != r[j].id
    {
      assert r[j] == ss[j - 1];
      if 0 < i {
        assert r[i] == ss[i - 1];
      }
    }
  }

  /** A walk over the list that has passed `done` and still has `todo`
      ahead: the sink it stands on, and the list after that sink is
      replaced by `y` or unlinked. */
  lemma Splice(done: seq<Sink>, todo: seq<Sink>, y: Sink)
    requires |todo| > 0
    ensures var ss, i := done + todo, |done|;
      ss[i] == todo[0] &&
      ss == (done + [todo[0]]) + todo[1..] &&
      ss[..i] + ss[i + 1..] == done + todo[1..] &&
      ss[i := y] == done + ([y] + todo[1..]) &&
      ss[i := y][..i] + ss[i := y][i + 1..] == done + todo[1..]
    ensures AllWellFormed(todo) ==> WellFormed(todo[0]) && AllWellFormed(todo[1..])
  {
    var ss, i := done + todo, |done|;
    assert ss == (done + [todo[0]]) + todo[1..] by {
      assert todo == [todo[0]] + todo[1..];
      AppendAssoc(done, [todo[0]], todo[1..]);
    }
    assert ss[..i] == done && ss[i + 1..] == todo[1..];
    var t := ss[i := y];
    assert t == done + ([y] + todo[1..]) by {
      assert |t| == |done + ([y] + todo[1..])|;
      forall k | 0 <= k < |t|
        ensures t[k] == (done + ([y] + todo[1..]))[k]
      {
      }
    }
    assert t[..i] == done && t[i + 1..] == todo[1..];
    if AllWellFormed(todo) {
      assert forall k :: 0 <= k < |todo[1..]| ==> todo[1..][k] == todo[k + 1];
    }
  }

  /** Appending is associative; a walk uses it to move one sink's calls
      from what is still to come to what has happened. */
  lemma AppendAssoc<T>(a: seq<T>, b: seq<T>, c: seq<T>)
    ensures a + (b + c) == (a + b) + c
  {
  }

  /** Unlinking the sink at `k` keeps the others distinct, and well formed
      and below `nextId` if they were, and takes one syslog sink off the
      count if it was one. */
  lemma RemoveAtKeeps(ss: seq<Sink>, k: nat, nextId: nat)
    requires DistinctIds(ss) && k < |ss|
    ensures var r := ss[..k] + ss[k + 1..];
      DistinctIds(r) &&
      (AllWellFormed(ss) ==> AllWellFormed(r)) &&
      (IdsBelow(ss, nextId) ==> IdsBelow(r, nextId)) &&
      SyslogSinks(r) == SyslogSinks(ss) - (if ss[k].isSyslog then 1 else 0)
  {
    var r := ss[..k] + ss[k + 1..];
    assert forall i :: 0 <= i < |r| ==> r[i] == ss[if i < k then i else i + 1];
    forall i, j | 0 <= i < j < |r|
      ensures r[i].id != r[j].id
    {
      var i', j' := if i < k then i else i + 1, if j < k then j else j + 1;
      assert r[i] == ss[i'] && r[j] == ss[j'] && i' < j';
    }
    assert ss == ss[..k] + ([ss[k]] + ss[k + 1..]);
    SyslogSinksAppend(ss[..k], [ss[k]] + ss[k + 1..]);
    SyslogSinksAppend(ss[..k], ss[k + 1..]);
    assert ([ss[k]] + ss[k + 1..])[1..] == ss[k + 1..];
  }

  /** Replacing a sink by one with the same id keeps the ids distinct. */
  lemma ReplaceKeepsDistinct(ss: seq<Sink>, k: nat, y: Sink)
    requires DistinctIds(ss) && k < |ss| && y.id == ss[k].id
    ensures DistinctIds(ss[k := y])
  {
    var r := ss[k := y];
    assert forall i :: 0 <= i < |r| ==> r[i].id == ss[i].id;
  }

  // -------------------------------------------------------------------
  // Filtering: what unlinking a set of nodes from the list leaves

  /** The sinks of `ss` that `keep` accepts, in their order. */
  function Filter(ss: seq<Sink>, keep: Sink -> bool): (r: seq<Sink>)
    ensures |r| <= |ss|
  {
    if ss == [] then []
    else (if keep(ss[0]) then [ss[0]] else []) + Filter(ss[1..], keep)
  }

  /** A sink is kept exactly when it was there and `keep` accepts it. */
  lemma {:induction false} FilterMembers(ss: seq<Sink>, keep: Sink -> bool)
    ensures forall x :: x in Filter(ss, keep) <==> x in ss && keep(x)
  {
    if ss != [] {
      FilterMembers(ss[1..], keep);
      assert ss == [ss[0]] + ss[1..];
    }
  }

  /** Filtering works piecewise, so the sinks kept stay in their order. */
  lemma {:induction false} FilterAppend(a: seq<Sink>, b: seq<Sink>, keep: Sink -> bool)
    ensures Filter(a + b, keep) == Filter(a, keep) + Filter(b, keep)
  {
    if a == [] {
      assert a + b == b;
    } else {
      var h := if keep(a[0]) then [a[0]] else [];
      assert (a + b)[0] == a[0] && (a + b)[1..] == a[1..] + b;
      calc {
        Filter(a + b, keep);
        h + Filter(a[1..] + b, keep);
        { FilterAppend(a[1..], b, keep); }
        h + (Filter(a[1..], keep) + Filter(b, keep));
        (h + Filter(a[1..], keep)) + Filter(b, keep);
      }
    }
  }

  /** Filtering that rejects nothing changes nothing. */
  lemma {:induction false} FilterKeepsAll(ss: seq<Sink>, keep: Sink -> bool)
    requires forall k :: 0 <= k < |ss| ==> keep(ss[k])
    ensures Filter(ss, keep) == ss
  {
    if ss != [] {
      assert forall k :: 0 <= k < |ss| - 1 ==> ss[1..][k] == ss[k + 1];
      FilterKeepsAll(ss[1..], keep);
    }
  }

  /** Filtering that rejects everything leaves nothing. */
  lemma {:induction false} FilterKeepsNone(ss: seq<Sink>, keep: Sink -> bool)
    requires forall k :: 0 <= k < |ss| ==> !keep(ss[k])
    ensures Filter(ss, keep) == []
  {
    if ss != [] {
      assert forall k :: 0 <= k < |ss| - 1 ==> ss[1..][k] == ss[k + 1];
      FilterKeepsNone(ss[1..], keep);
    }
  }

  /** Filtering that rejects only the sink at `k` removes exactly that one
      and leaves the others in their order. */
  lemma {:induction false} FilterDropsOne(ss: seq<Sink>, keep: Sink -> bool, k: nat)
    requires k < |ss| && !keep(ss[k])
    requires forall i :: 0 <= i < |ss| && i != k ==> keep(ss[i])
    ensures Filter(ss, keep) == ss[..k] + ss[k + 1..]
  {
    var a, x, b := ss[..k], ss[k], ss[k + 1..];
    assert ss == a + ([x] + b);
    FilterAppend(a, [x] + b, keep);
    assert Filter(a, keep) == a by {
      assert forall i :: 0 <= i < |a| ==> a[i] == ss[i];
      FilterKeepsAll(a, keep);
    }
    assert Filter([x] + b, keep) == b by {
      assert ([x] + b)[0] == x && ([x] + b)[1..] == b;
      assert forall i :: 0 <= i < |b| ==> b[i] == ss[k + 1 + i];
      FilterKeepsAll(b, keep);
      assert [] + b == b;
    }
  }

  /** Filtering keeps ids distinct. */
  lemma {:induction false} FilterDistinct(ss: seq<Sink>, keep: Sink -> bool)
    requires DistinctIds(ss)
    ensures DistinctIds(Filter(ss, keep))
  {
    if ss != [] {
      var x, rest := ss[0], ss[1..];
      assert forall i :: 0 <= i < |rest| ==> rest[i] == ss[i + 1];
      FilterDistinct(rest, keep);
      FilterMembers(rest, keep);
      var fr := Filter(rest, keep);
      if keep(x) {
        var r := [x] + fr;
        forall i, j | 0 <= i < j < |r|
          ensures r[i].id != r[j].id
        {
          assert r[j] == fr[j - 1] && fr[j - 1] in rest;
          if i == 0 {
            var m :| 0 <= m < |rest| && rest[m] == fr[j - 1];
            assert ss[m + 1] == r[j];
          } else {
            assert r[i] == fr[i - 1];
          }
        }
      } else {
        assert Filter(ss, keep) == fr;
      }
    }
  }

  /** How many syslog sinks a sequence holds. */
  function SyslogSinks(ss: seq<Sink>): nat {
    if ss == [] then 0
    else (if ss[0].isSyslog then 1 else 0) + SyslogSinks(ss[1..])
  }

  lemma {:induction false} SyslogSinksAppend(a: seq<Sink>, b: seq<Sink>)
    ensures SyslogSinks(a + b) == SyslogSinks(a) + SyslogSinks(b)
  {
    if a == [] {
      assert a + b == b;
    } else {
      assert (a + b)[0] == a[0] && (a + b)[1..] == a[1..] + b;
      SyslogSinksAppend(a[1..], b);
    }
  }

  /** Sequences that agree, position by position, on which sinks are
      syslog sinks hold as many of them. */
  lemma {:induction false} SyslogSinksPointwise(a: seq<Sink>, b: seq<Sink>)
    requires |a| == |b| && forall k :: 0 <= k < |a| ==> a[k].isSyslog == b[k].isSyslog
    ensures SyslogSinks(a) == SyslogSinks(b)
  {
    if a != [] {
      assert forall k :: 0 <= k < |a| - 1 ==> a[1..][k] == a[k + 1] && b[1..][k] == b[k + 1];
      SyslogSinksPointwise(a[1..], b[1..]);
    }
  }

  /** Dropping only sinks that are not syslog sinks keeps the count. */
  lemma {:induction false} FilterKeepsSyslogCount(ss: seq<Sink>, keep: Sink -> bool)
    requires forall k :: 0 <= k < |ss| && ss[k].isSyslog ==> keep(ss[k])
    ensures SyslogSinks(Filter(ss, keep)) == SyslogSinks(ss)
  {
    if ss != [] {
      var x, rest := ss[0], ss[1..];
      assert forall k :: 0 <= k < |rest| ==> rest[k] == ss[k + 1];
      FilterKeepsSyslogCount(rest, keep);
      SyslogSinksAppend(if keep(x) then [x] else [], Filter(rest, keep));
      assert [x][1..] == [];
    }
  }

  /** One step of a walk that filters as it goes: the sink it stands on
      joins the kept ones or is gone. */
  lemma FilterStep(done: seq<Sink>, todo: seq<Sink>, keep: Sink -> bool)
    requires |todo| > 0
    ensures keep(todo[0]) ==> Filter(todo, keep) == [todo[0]] + Filter(todo[1..], keep)
    ensures keep(todo[0]) ==> done + Filter(todo, keep) == (done + [todo[0]]) + Filter(todo[1..], keep)
    ensures !keep(todo[0]) ==> Filter(todo, keep) == Filter(todo[1..], keep)
  {
    var x, rest := todo[0], Filter(todo[1..], keep);
    assert Filter(todo, keep) == (if keep(x) then [x] else []) + rest;
    if keep(x) {
      AppendAssoc(done, [x], rest);
    } else {
      assert [] + rest == rest;
    }
  }

  /** Filtering keeps every part of the invariant but the counter. */
  lemma FilterKeepsShape(ss: seq<Sink>, keep: Sink -> bool, nextId: nat)
    requires AllWellFormed(ss) && DistinctIds(ss) && IdsBelow(ss, nextId)
    ensures var r := Filter(ss, keep);
      AllWellFormed(r) && DistinctIds(r) && IdsBelow(r, nextId)
  {
    FilterDistinct(ss, keep);
    FilterMembers(ss, keep);
    var r := Filter(ss, keep);
    forall k | 0 <= k < |r|
      ensures WellFormed(r[k]) && r[k].id < nextId
    {
      assert r[k] in ss;
    }
  }

  // -------------------------------------------------------------------
  // Dispatch (logv)

  /** The message reaches the sink: its severity lies in the sink's band
      and the sink has somewhere to send it. */
  predicate Receives(s: Sink, severity: int) {
    InBand(severity, s.loglevel, s.maxLoglevel) && (s.file.Some? || s.isSyslog || s.callback.Some?)
  }

  /** A receiving sink that is neither syslog nor callback gets the line
      through fputs on its stream. */
  predicate WritesFile(s: Sink) {
    !s.isSyslog && s.callback.None?
  }

  /** What logv does for one sink with the line formatted for this call:
      syslog and callbacks get the text after the prefix, streams the whole
      line. */
  function Delivery(s: Sink, severity: int, line: string, eop: nat): (d: seq<Effect>)
    requires eop <= |line|
    ensures |d| == if Receives(s, severity) then 1 else 0
  {
    if !Receives(s, severity) then []
    else if s.isSyslog then [SyslogSend(severity, line[eop..])]
    else if s.callback.Some? then [Invoke(s.callback.value, severity, line[eop..])]
    else [Fputs(s.file.value, line)]
  }

  /** The deliveries of a whole walk over `ss`, in list order. */
  function Deliveries(ss: seq<Sink>, severity: int, line: string, eop: nat): seq<Effect>
    requires eop <= |line|
  {
    if ss == [] then []
    else Delivery(ss[0], severity, line, eop) + Deliveries(ss[1..], severity, line, eop)
  }

  predicate AnyReceives(ss: seq<Sink>, severity: int) {
    exists k :: 0 <= k < |ss| && Receives(ss[k], severity)
  }

  /** A sink survives the walk unless its fputs or fflush fails. */
  function Survives(severity: int, failing: set<nat>): Sink -> bool {
    s => !(Receives(s, severity) && WritesFile(s) && s.id in failing)
  }

  /** The list logv leaves behind. */
  function Dispatched(ss: seq<Sink>, severity: int, failing: set<nat>): seq<Sink> {
    Filter(ss, Survives(severity, failing))
  }

  /** A walk hands something out exactly when some sink receives the
      message, and what it hands out is the one formatted line: whole to
      streams, after its prefix to syslog and callbacks. */
  lemma {:induction false} DeliveriesShareOneLine(ss: seq<Sink>, severity: int, line: string, eop: nat)
    requires eop <= |line|
    ensures Deliveries(ss, severity, line, eop) == [] <==> !AnyReceives(ss, severity)
    ensures forall e :: e in Deliveries(ss, severity, line, eop) ==>
      (e.Fputs? && e.text == line) ||
      (e.SyslogSend? && e.priority == severity && e.text == line[eop..]) ||
      (e.Invoke? && e.severity == severity && e.text == line[eop..])
  {
    if ss != [] {
      var rest := ss[1..];
      DeliveriesShareOneLine(rest, severity, line, eop);
      if AnyReceives(rest, severity) {
        var k :| 0 <= k < |rest| && Receives(rest[k], severity);
        assert ss[k + 1] == rest[k];
      }
      if AnyReceives(ss, severity) && !Receives(ss[0], severity) {
        var k :| 0 <= k < |ss| && Receives(ss[k], severity);
        assert rest[k - 1] == ss[k];
      }
    }
  }

  /** A failed write removes exactly the sink written to; the rest keep
      their order. */
  lemma DispatchDropsOnlyFailed(ss: seq<Sink>, severity: int, failing: set<nat>, k: nat)
    requires k < |ss| && Receives(ss[k], severity) && WritesFile(ss[k]) && ss[k].id in failing
    requires forall i :: 0 <= i < |ss| && i != k ==> ss[i].id !in failing
    ensures Dispatched(ss, severity, failing) == ss[..k] + ss[k + 1..]
  {
    FilterDropsOne(ss, Survives(severity, failing), k);
  }

  /** When every write succeeds, the list is unchanged. */
  lemma DispatchWithoutFailures(ss: seq<Sink>, severity: int, failing: set<nat>)
    requires forall i :: 0 <= i < |ss| ==> ss[i].id !in failing
    ensures Dispatched(ss, severity, failing) == ss
  {
    FilterKeepsAll(ss, Survives(severity, failing));
  }

  /** A dispatch never drops a syslog sink, so the syslog count stays
      right without close_log. */
  lemma DispatchKeepsSyslogSinks(ss: seq<Sink>, severity: int, failing: set<nat>)
    ensures SyslogSinks(Dispatched(ss, severity, failing)) == SyslogSinks(ss)
  {
    FilterKeepsSyslogCount(ss, Survives(severity, failing));
  }

  /** Sinks that do not receive the message get nothing and survive, so a
      walk may pass over a run of them before it starts delivering. */
  lemma {:induction false} PassOverNonReceivers(ss: seq<Sink>, i: nat, severity: int, failing: set<nat>, line: string, eop: nat)
    requires i <= |ss| && eop <= |line|
    requires forall j :: 0 <= j < i ==> !Receives(ss[j], severity)
    ensures Deliveries(ss, severity, line, eop) == Deliveries(ss[i..], severity, line, eop)
    ensures Dispatched(ss, severity, failing) == ss[..i] + Dispatched(ss[i..], severity, failing)
  {
    if i == 0 {
      assert ss[..0] == [] && ss[0..] == ss;
    } else {
      var rest := ss[1..];
      var keep := Survives(severity, failing);
      assert !Receives(ss[0], severity) && keep(ss[0]);
      assert rest[i - 1..] == ss[i..];
      assert ss[..i] == [ss[0]] + rest[..i - 1];
      PassOverNonReceivers(rest, i - 1, severity, failing, line, eop) by {
        forall j | 0 <= j < i - 1
          ensures !Receives(rest[j], severity)
        {
          assert rest[j] == ss[j + 1];
        }
      }
      assert Deliveries(ss, severity, line, eop) == Deliveries(rest, severity, line, eop) by {
        assert Delivery(ss[0], severity, line, eop) == [];
        assert [] + Deliveries(rest, severity, line, eop) == Deliveries(rest, severity, line, eop);
      }
      assert Dispatched(ss, severity, failing) == [ss[0]] + Dispatched(rest, severity, failing) by {
        FilterStep([], ss, keep);
      }
      AppendAssoc([ss[0]], rest[..i - 1], Dispatched(ss[i..], severity, failing));
    }
  }

  /** Dispatch keeps the registry's invariant. */
  lemma DispatchKeepsConsistent(ss: seq<Sink>, syslogCount: int, nextId: nat, severity: int, failing: set<nat>)
    requires Consistent(ss, syslogCount, nextId)
    ensures Consistent(Dispatched(ss, severity, failing), syslogCount, nextId)
  {
    FilterKeepsShape(ss, Survives(severity, failing), nextId);
    DispatchKeepsSyslogSinks(ss, severity, failing);
  }

  // -------------------------------------------------------------------
  // close_log, and closing a run of sinks

  /** What close_log emits for one sink when the syslog count is `count`. */
  function CloseEffects(s: Sink, count: int): seq<Effect> {
    if s.needsClose && s.file.Some? then [Fclose(s.file.value)]
    else if s.isSyslog && count - 1 == 0 then [Closelog]
    else []
  }

  /** The syslog count after close_log of one sink. */
  function CountAfterClose(s: Sink, count: int): (c: int)
    ensures WellFormed(s) ==> c == count - (if s.isSyslog then 1 else 0)
  {
    if s.needsClose && s.file.Some? then count
    else if s.isSyslog then count - 1
    else count
  }

  /** The syslog count after close_log on each of `ss` in turn. */
  function CountAfterClosing(ss: seq<Sink>, count: int): int {
    if ss == [] then count
    else CountAfterClosing(ss[1..], CountAfterClose(ss[0], count))
  }

  /** The calls made by close_log on each of `ss` in turn. */
  function ClosingEffects(ss: seq<Sink>, count: int): seq<Effect> {
    if ss == [] then []
    else CloseEffects(ss[0], count) + ClosingEffects(ss[1..], CountAfterClose(ss[0], count))
  }

  function CloseLogCalls(es: seq<Effect>): nat {
    if es == [] then 0
    else (if es[0] == Closelog then 1 else 0) + CloseLogCalls(es[1..])
  }

  lemma {:induction false} CloseLogCallsAppend(a: seq<Effect>, b: seq<Effect>)
    ensures CloseLogCalls(a + b) == CloseLogCalls(a) + CloseLogCalls(b)
  {
    if a == [] {
      assert a + b == b;
    } else {
      assert (a + b)[0] == a[0] && (a + b)[1..] == a[1..] + b;
      CloseLogCallsAppend(a[1..], b);
    }
  }

  /** Closing well-formed sinks takes one off the count per syslog sink. */
  lemma {:induction false} ClosingCountsSyslogSinks(ss: seq<Sink>, count: int)
    requires AllWellFormed(ss)
    ensures CountAfterClosing(ss, count) == count - SyslogSinks(ss)
  {
    if ss != [] {
      assert forall k :: 0 <= k < |ss| - 1 ==> ss[1..][k] == ss[k + 1];
      ClosingCountsSyslogSinks(ss[1..], CountAfterClose(ss[0], count));
    }
  }

  /** Starting from a count no smaller than the syslog sinks being closed,
      closelog is called once if the count is used up, else never. */
  lemma {:induction false} ClosingCallsCloselogOnce(ss: seq<Sink>, count: int)
    requires AllWellFormed(ss) && count >= SyslogSinks(ss)
    ensures CloseLogCalls(ClosingEffects(ss, count)) == if SyslogSinks(ss) > 0 && count == SyslogSinks(ss) then 1 else 0
  {
    if ss != [] {
      var x, rest := ss[0], ss[1..];
      var c := CountAfterClose(x, count);
      assert forall k :: 0 <= k < |rest| ==> rest[k] == ss[k + 1];
      assert WellFormed(x);
      ClosingCallsCloselogOnce(rest, c);
      CloseLogCallsAppend(CloseEffects(x, count), ClosingEffects(rest, c));
      assert CloseLogCalls([Closelog]) == 1 by {
        assert [Closelog][1..] == [];
      }
      if x.needsClose {
        assert CloseLogCalls([Fclose(x.file.value)]) == 0 by {
          assert [Fclose(x.file.value)][1..] == [];
        }
      }
    }
  }

  /** Closing closes every owned stream among the closed sinks. */
  lemma {:induction false} ClosingClosesOwnedStreams(ss: seq<Sink>, count: int, k: nat)
    requires k < |ss| && ss[k].needsClose && ss[k].file.Some?
    ensures Fclose(ss[k].file.value) in ClosingEffects(ss, count)
  {
    if k > 0 {
      assert ss[1..][k - 1] == ss[k];
      ClosingClosesOwnedStreams(ss[1..], CountAfterClose(ss[0], count), k - 1);
    }
  }

  /** Closing closes no stream but the owned ones: every fclose is of the
      stream of a closed sink with needs_close. */
  lemma {:induction false} ClosingClosesOnlyOwned(ss: seq<Sink>, count: int, h: Handle)
    requires Fclose(h) in ClosingEffects(ss, count)
    ensures exists k :: 0 <= k < |ss| && ss[k].needsClose && ss[k].file == Some(h)
  {
    var x, rest := ss[0], ss[1..];
    var c := CountAfterClose(x, count);
    if Fclose(h) in CloseEffects(x, count) {
      assert ss[0].needsClose && ss[0].file == Some(h);
    } else {
      assert Fclose(h) in ClosingEffects(rest, c);
      ClosingClosesOnlyOwned(rest, c, h);
      var k :| 0 <= k < |rest| && rest[k].needsClose && rest[k].file == Some(h);
      assert ss[k + 1] == rest[k];
    }
  }

  /** Closing one more sink: its calls come first, the rest continue from
      the count it leaves. */
  lemma ClosingStep(x: Sink, rest: seq<Sink>, count: int)
    ensures CountAfterClosing([x] + rest, count) == CountAfterClosing(rest, CountAfterClose(x, count))
    ensures ClosingEffects([x] + rest, count) == CloseEffects(x, count) + ClosingEffects(rest, CountAfterClose(x, count))
  {
    assert ([x] + rest)[0] == x && ([x] + rest)[1..] == rest;
  }

  // -------------------------------------------------------------------
  // Temporary sinks

  predicate IsTemporary(s: Sink) {
    s.isTemporary
  }

  predicate IsPermanent(s: Sink) {
    !s.isTemporary
  }

  /** What close_temp_logs closes, and what it leaves. */
  function Temporaries(ss: seq<Sink>): seq<Sink> {
    Filter(ss, IsTemporary)
  }

  function Permanents(ss: seq<Sink>): seq<Sink> {
    Filter(ss, IsPermanent)
  }

  /** The list after mark_logs_temp. */
  function MarkedTemporary(ss: seq<Sink>): (r: seq<Sink>)
    ensures |r| == |ss|
  {
    seq(|ss|, k requires 0 <= k < |ss| => ss[k].(isTemporary := true))
  }

  /** Marking every sink temporary keeps the registry's invariant. */
  lemma MarkKeepsConsistent(ss: seq<Sink>, syslogCount: int, nextId: nat)
    requires Consistent(ss, syslogCount, nextId)
    ensures Consistent(MarkedTemporary(ss), syslogCount, nextId)
  {
    SyslogSinksPointwise(ss, MarkedTemporary(ss));
  }

  /** The syslog sinks split between the closed and the kept ones. */
  lemma {:induction false} TemporariesSplitSyslog(ss: seq<Sink>)
    ensures SyslogSinks(Temporaries(ss)) + SyslogSinks(Permanents(ss)) == SyslogSinks(ss)
  {
    if ss != [] {
      var x, rest := ss[0], ss[1..];
      TemporariesSplitSyslog(rest);
      SyslogSinksAppend(if x.isTemporary then [x] else [], Temporaries(rest));
      SyslogSinksAppend(if x.isTemporary then [] else [x], Permanents(rest));
      assert [x][1..] == [];
    }
  }

  /** Closing the temporary sinks keeps the registry's invariant: the
      counter loses exactly their syslog sinks. */
  lemma CloseTempKeepsConsistent(ss: seq<Sink>, syslogCount: int, nextId: nat)
    requires Consistent(ss, syslogCount, nextId)
    ensures Consistent(Permanents(ss), CountAfterClosing(Temporaries(ss), syslogCount), nextId)
  {
    FilterKeepsShape(ss, IsPermanent, nextId);
    FilterKeepsShape(ss, IsTemporary, nextId);
    ClosingCountsSyslogSinks(Temporaries(ss), syslogCount);
    TemporariesSplitSyslog(ss);
  }

  /** One step of close_temp_logs' walk, which has kept `done` and still
      has `todo` ahead: a temporary sink is closed and leaves the list, any
      other joins the kept ones, and in both cases what is kept, what the
      counter becomes and what is called stay on course for the whole walk. */
  lemma CloseTempStep(done: seq<Sink>, todo: seq<Sink>, orig: seq<Sink>,
                      count: int, calls: seq<Effect>, count0: int, calls0: seq<Effect>)
    requires |todo| > 0
    requires done + Permanents(todo) == Permanents(orig)
    requires CountAfterClosing(Temporaries(todo), count) == CountAfterClosing(Temporaries(orig), count0)
    requires calls + ClosingEffects(Temporaries(todo), count) == calls0 + ClosingEffects(Temporaries(orig), count0)
    ensures var x, rest := todo[0], todo[1..];
      x.isTemporary ==>
        done + Permanents(rest) == Permanents(orig) &&
        CountAfterClosing(Temporaries(rest), CountAfterClose(x, count)) == CountAfterClosing(Temporaries(orig), count0) &&
        (calls + CloseEffects(x, count)) + ClosingEffects(Temporaries(rest), CountAfterClose(x, count))
          == calls0 + ClosingEffects(Temporaries(orig), count0)
    ensures var x, rest := todo[0], todo[1..];
      !x.isTemporary ==>
        (done + [x]) + Permanents(rest) == Permanents(orig) &&
        CountAfterClosing(Temporaries(rest), count) == CountAfterClosing(Temporaries(orig), count0) &&
        calls + ClosingEffects(Temporaries(rest), count) == calls0 + ClosingEffects(Temporaries(orig), count0)
  {
    var x, rest := todo[0], todo[1..];
    FilterStep(done, todo, IsPermanent);
    FilterStep([], todo, IsTemporary);
    if x.isTemporary {
      var later := Temporaries(rest);
      ClosingStep(x, later, count);
      AppendAssoc(calls, CloseEffects(x, count), ClosingEffects(later, CountAfterClose(x, count)));
    }
  }

  /** Marking every sink temporary, adding more, then closing the temporary
      ones leaves exactly the sinks added after the mark. */
  lemma MarkThenCloseTemp(added: seq<Sink>, ss: seq<Sink>)
    requires forall k :: 0 <= k < |added| ==> !added[k].isTemporary
    ensures Permanents(added + MarkedTemporary(ss)) == added
  {
    FilterAppend(added, MarkedTemporary(ss), IsPermanent);
    FilterKeepsAll(added, IsPermanent);
    FilterKeepsNone(MarkedTemporary(ss), IsPermanent);
  }

  // -------------------------------------------------------------------
  // log_tor_version and rotation (reset_logs)

  /** Whether log_tor_version writes its banner and, if so, whether it says
      the file is new: only for a sink that owns a real stream and is not
      temporary, and during a reset only into an empty file. */
  function BannerFor(lf: Sink, reset: bool, atStart: bool): Option<bool> {
    if !lf.needsClose || lf.isTemporary || (reset && !atStart) then None
    else Some(atStart)
  }

  /** The banner log_tor_version writes to the sink's stream, if any. */
  function BannerEffects(lf: Sink, reset: bool, atStart: bool, clock: Clock, version: string): seq<Effect>
    requires ValidClock(clock)
  {
    match BannerFor(lf, reset, atStart)
    case None => []
    case Some(isNew) => if lf.file.Some? then [Fputs(lf.file.value, BannerLine(clock, version, isNew))] else []
  }

  /** The banner's decision, stated as its callers rely on it. */
  lemma BannerRules(lf: Sink, reset: bool, atStart: bool)
    ensures BannerFor(lf, reset, atStart).Some? <==> lf.needsClose && !lf.isTemporary && (!reset || atStart)
    ensures BannerFor(lf, reset, atStart).Some? ==> BannerFor(lf, reset, atStart).value == atStart
    ensures reset && BannerFor(lf, reset, atStart).Some? ==> BannerFor(lf, reset, atStart).value
  {
  }

  /** reset_log succeeds for a sink that owns no stream, or whose stream
      closes and whose file reopens. */
  predicate ReopenOk(s: Sink, closeFails: set<nat>, reopened: map<nat, Opened>) {
    !s.needsClose || (s.id !in closeFails && s.id in reopened)
  }

  /** The sink after reset_log: an owned stream whose fclose worked is
      replaced by what fopen returned, NULL when it failed. */
  function AfterReset(s: Sink, closeFails: set<nat>, reopened: map<nat, Opened>): (r: Sink)
    ensures r.id == s.id && r.isSyslog == s.isSyslog && r.needsClose == s.needsClose
    ensures ReopenOk(s, closeFails, reopened) && WellFormed(s) ==> WellFormed(r)
  {
    if !s.needsClose || s.id in closeFails then s
    else if s.id in reopened then s.(file := Some(reopened[s.id].handle))
    else s.(file := None)
  }

  /** The list reset_logs leaves behind: the sinks whose reset worked, in
      their order. */
  function Rotated(ss: seq<Sink>, closeFails: set<nat>, reopened: map<nat, Opened>): (r: seq<Sink>)
    ensures |r| <= |ss|
  {
    if ss == [] then []
    else
      (if ReopenOk(ss[0], closeFails, reopened) then [AfterReset(ss[0], closeFails, reopened)] else []) +
      Rotated(ss[1..], closeFails, reopened)
  }

  /** One step of the rotation walk: the reset sink stays, as AfterReset
      leaves it, or is gone. */
  lemma RotationStep(done: seq<Sink>, todo: seq<Sink>, closeFails: set<nat>, reopened: map<nat, Opened>)
    requires |todo| > 0
    ensures var x := todo[0];
      ReopenOk(x, closeFails, reopened) ==>
        done + Rotated(todo, closeFails, reopened) == (done + [AfterReset(x, closeFails, reopened)]) + Rotated(todo[1..], closeFails, reopened)
    ensures !ReopenOk(todo[0], closeFails, reopened) ==> Rotated(todo, closeFails, reopened) == Rotated(todo[1..], closeFails, reopened)
  {
    var rest := Rotated(todo[1..], closeFails, reopened);
    if ReopenOk(todo[0], closeFails, reopened) {
      AppendAssoc(done, [AfterReset(todo[0], closeFails, reopened)], rest);
    } else {
      assert [] + rest == rest;
    }
  }

  /** What reset_log emits for one sink: the fclose of an owned stream and,
      once the file reopened, the banner if the file is empty. */
  function ResetEffects(s: Sink, closeFails: set<nat>, reopened: map<nat, Opened>, clock: Clock, version: string): seq<Effect>
    requires ValidClock(clock)
  {
    if !s.needsClose then []
    else
      (if s.file.Some? then [Fclose(s.file.value)] else []) +
      (if s.id in closeFails || s.id !in reopened then []
       else BannerEffects(AfterReset(s, closeFails, reopened), true, reopened[s.id].atStart, clock, version))
  }

  function RotationEffects(ss: seq<Sink>, closeFails: set<nat>, reopened: map<nat, Opened>, clock: Clock, version: string): seq<Effect>
    requires ValidClock(clock)
  {
    if ss == [] then []
    else ResetEffects(ss[0], closeFails, reopened, clock, version) + RotationEffects(ss[1..], closeFails, reopened, clock, version)
  }

  lemma {:induction false} RotatedAppend(a: seq<Sink>, b: seq<Sink>, closeFails: set<nat>, reopened: map<nat, Opened>)
    ensures Rotated(a + b, closeFails, reopened) == Rotated(a, closeFails, reopened) + Rotated(b, closeFails, reopened)
  {
    if a == [] {
      assert a + b == b;
    } else {
      assert (a + b)[0] == a[0] && (a + b)[1..] == a[1..] + b;
      RotatedAppend(a[1..], b, closeFails, reopened);
    }
  }

  /** What survives rotation is exactly the sinks whose reset succeeded,
      each with its new stream; sinks owning no stream come through as
      they were. */
  lemma {:induction false} RotatedMembers(ss: seq<Sink>, closeFails: set<nat>, reopened: map<nat, Opened>)
    ensures forall x :: x in Rotated(ss, closeFails, reopened) <==>
      exists k :: 0 <= k < |ss| && ReopenOk(ss[k], closeFails, reopened) && x == AfterReset(ss[k], closeFails, reopened)
    ensures forall k :: 0 <= k < |ss| && !ss[k].needsClose ==> ss[k] in Rotated(ss, closeFails, reopened)
  {
    if ss != [] {
      var rest := ss[1..];
      RotatedMembers(rest, closeFails, reopened);
      forall x | x in Rotated(ss, closeFails, reopened)
        ensures exists k :: 0 <= k < |ss| && ReopenOk(ss[k], closeFails, reopened) && x == AfterReset(ss[k], closeFails, reopened)
      {
        if x in Rotated(rest, closeFails, reopened) {
          var k :| 0 <= k < |rest| && ReopenOk(rest[k], closeFails, reopened) && x == AfterReset(rest[k], closeFails, reopened);
          assert ss[k + 1] == rest[k];
        } else {
          assert x == AfterReset(ss[0], closeFails, reopened);
        }
      }
      forall k | 0 <= k < |ss| && ReopenOk(ss[k], closeFails, reopened)
        ensures AfterReset(ss[k], closeFails, reopened) in Rotated(ss, closeFails, reopened)
      {
        if k > 0 {
          assert rest[k - 1] == ss[k];
        }
      }
    }
  }

  /** When every owned stream reopens, every sink keeps its position. */
  lemma {:induction false} RotationKeepsPositions(ss: seq<Sink>, closeFails: set<nat>, reopened: map<nat, Opened>)
    requires forall k :: 0 <= k < |ss| ==> ReopenOk(ss[k], closeFails, reopened)
    ensures |Rotated(ss, closeFails, reopened)| == |ss|
    ensures forall k :: 0 <= k < |ss| ==> Rotated(ss, closeFails, reopened)[k] == AfterReset(ss[k], closeFails, reopened)
  {
    if ss != [] {
      assert forall k :: 0 <= k < |ss| - 1 ==> ss[1..][k] == ss[k + 1];
      RotationKeepsPositions(ss[1..], closeFails, reopened);
    }
  }

  /** During rotation the only writes are banners, and a banner is
      written only into an empty file, so it always says "new". */
  lemma {:induction false} RotationBannersAreNew(ss: seq<Sink>, closeFails: set<nat>, reopened: map<nat, Opened>, clock: Clock, version: string)
    requires ValidClock(clock)
    ensures forall e :: e in RotationEffects(ss, closeFails, reopened, clock, version) ==>
      e.Fclose? || (e.Fputs? && e.text == BannerLine(clock, version, true))
  {
    if ss != [] {
      RotationBannersAreNew(ss[1..], closeFails, reopened, clock, version);
    }
  }

  /** Rotation only drops sinks that own a stream, never a syslog sink. */
  lemma {:induction false} RotationKeepsSyslogSinks(ss: seq<Sink>, closeFails: set<nat>, reopened: map<nat, Opened>)
    requires AllWellFormed(ss)
    ensures SyslogSinks(Rotated(ss, closeFails, reopened)) == SyslogSinks(ss)
  {
    if ss != [] {
      var x, rest := ss[0], ss[1..];
      assert forall k :: 0 <= k < |rest| ==> rest[k] == ss[k + 1];
      assert WellFormed(x);
      RotationKeepsSyslogSinks(rest, closeFails, reopened);
      var h := if ReopenOk(x, closeFails, reopened) then [AfterReset(x, closeFails, reopened)] else [];
      SyslogSinksAppend(h, Rotated(rest, closeFails, reopened));
      assert [AfterReset(x, closeFails, reopened)][1..] == [];
    }
  }

  /** Rotation keeps ids distinct. */
  lemma {:induction false} RotationKeepsDistinct(ss: seq<Sink>, closeFails: set<nat>, reopened: map<nat, Opened>)
    requires DistinctIds(ss)
    ensures DistinctIds(Rotated(ss, closeFails, reopened))
  {
    if ss != [] {
      var x, rest := ss[0], ss[1..];
      assert forall k :: 0 <= k < |rest| ==> rest[k] == ss[k + 1];
      RotationKeepsDistinct(rest, closeFails, reopened);
      if ReopenOk(x, closeFails, reopened) {
        RotatedMembers(rest, closeFails, reopened);
        var rr := Rotated(rest, closeFails, reopened);
        var r := [AfterReset(x, closeFails, reopened)] + rr;
        forall i, j | 0 <= i < j < |r|
          ensures r[i].id != r[j].id
        {
          assert r[j] == rr[j - 1] && rr[j - 1] in rr;
          if i == 0 {
            var k :| 0 <= k < |rest| && ReopenOk(rest[k], closeFails, reopened) && rr[j - 1] == AfterReset(rest[k], closeFails, reopened);
            assert ss[k + 1] == rest[k];
          } else {
            assert r[i] == rr[i - 1];
          }
        }
      }
    }
  }

  /** Rotation keeps the registry's invariant. */
  lemma RotationKeepsConsistent(ss: seq<Sink>, syslogCount: int, nextId: nat, closeFails: set<nat>, reopened: map<nat, Opened>)
    requires Consistent(ss, syslogCount, nextId)
    ensures Consistent(Rotated(ss, closeFails, reopened), syslogCount, nextId)
  {
    RotationKeepsSyslogSinks(ss, closeFails, reopened);
    RotationKeepsDistinct(ss, closeFails, reopened);
    RotatedMembers(ss, closeFails, reopened);
    var r := Rotated(ss, closeFails, reopened);
    forall i | 0 <= i < |r|
      ensures WellFormed(r[i]) && r[i].id < nextId
    {
      assert r[i] in r;
      var k :| 0 <= k < |ss| && ReopenOk(ss[k], closeFails, reopened) && r[i] == AfterReset(ss[k], closeFails, reopened);
    }
  }

  // -------------------------------------------------------------------
  // get_min_log_level

  /** The least critical `loglevel` among the sinks, never below LOG_ERR. */
  function LeastCriticalLevel(ss: seq<Sink>): (m: int)
    ensures m >= LOG_ERR
    ensures forall k :: 0 <= k < |ss| ==> ss[k].loglevel <= m
    ensures m == LOG_ERR || exists k :: 0 <= k < |ss| && ss[k].loglevel == m
  {
    if ss == [] then LOG_ERR
    else
      var init := ss[..|ss| - 1];
      var m := LeastCriticalLevel(init);
      assert forall k :: 0 <= k < |init| ==> ss[k] == init[k];
      if ss[|ss| - 1].loglevel > m then ss[|ss| - 1].loglevel else m
  }
}
