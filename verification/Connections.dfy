/**
 The websocket connection as a state machine: a ready state, a reconnect timer and a heartbeat
 timer, moved by the library's callbacks, by polling, and by connecting and closing. The
 library decides freely which callbacks come and what its calls answer; times are the clock's
 seconds, of which the timers keep the low 32 bits and take zero to mean "not set".
 */
module Connections {
  const TWO_32 := 0x1_0000_0000
  const RECONNECT_INTERVAL := 5
  const HEARTBEAT_INTERVAL := 300

  type uint32 = n: nat | n < TWO_32

  datatype ReadyState = Connecting | Open | Closing | Closed

  datatype Conn = Conn(state: ReadyState, reconnect: uint32, heartbeat: uint32, context: bool)

  const START := Conn(Closed, 0, 0, false)

  /** The library's callbacks. Writing is done in `Writeable`; here only its place matters. */
  datatype Event =
    | Established | ConnectionError | ConnectionClosed | Received | Pong | Writeable
    | ProtocolDestroy | WsiDestroy | Other

  /** The places where the connection's state is looked at or changed. */
  datatype Step =
    | Prepare(ok: bool)               // connecting, up to the library's own part; ok: a context could be made
    | Refused(now: nat)               // the library refused to connect
    | Callback(e: Event, now: nat)
    | Retry(now: nat, ok: bool)       // a poll looking whether to reconnect, and if so preparing to
    | Beat(now: nat)                  // a poll looking whether to send a heartbeat
    | Shut                            // closing on request

  /** Unsigned 32-bit subtraction of a timer from the clock. */
  function Elapsed(now: nat, timer: uint32): uint32 {
    (now - timer) % TWO_32
  }

  predicate RetryDue(c: Conn, now: nat) {
    c.state == Closed && c.reconnect != 0 && Elapsed(now, c.reconnect) >= RECONNECT_INTERVAL
  }

  predicate BeatDue(c: Conn, now: nat) {
    c.state == Open && c.heartbeat != 0 && Elapsed(now, c.heartbeat) >= HEARTBEAT_INTERVAL
  }

  function AfterCallback(c: Conn, e: Event, now: nat): Conn {
    match e
    case Established => c.(state := Open, heartbeat := now % TWO_32)
    case ConnectionError => c.(state := Closed, reconnect := now % TWO_32)
    case ConnectionClosed =>
      if c.state == Closing then c.(state := Closed) else c.(state := Closed, reconnect := now % TWO_32)
    case ProtocolDestroy => START
    case WsiDestroy => c.(state := Closed, reconnect := now % TWO_32)
    case _ => c
  }

  function Prepared(c: Conn, ok: bool): Conn {
    if c.context || ok then c.(context := true, state := Connecting) else c
  }

  function Next(c: Conn, s: Step): Conn {
    match s
    case Prepare(ok) => Prepared(c, ok)
    case Refused(now) => c.(state := Closed, reconnect := now % TWO_32)
    case Callback(e, now) => AfterCallback(c, e, now)
    case Retry(now, ok) => if RetryDue(c, now) then Prepared(c.(reconnect := 0), ok) else c
    case Beat(now) => if BeatDue(c, now) then c.(heartbeat := now % TWO_32) else c
    case Shut => if c.context then c.(state := Closing) else c
  }

  function RunFrom(c: Conn, steps: seq<Step>): Conn {
    if steps == [] then c else Next(RunFrom(c, steps[..|steps| - 1]), steps[|steps| - 1])
  }

  function Run(steps: seq<Step>): Conn {
    RunFrom(START, steps)
  }

  lemma {:induction false} RunAppend(s: seq<Step>, t: seq<Step>)
    ensures Run(s + t) == RunFrom(Run(s), t)
  {
    if t == [] {
      assert s + t == s;
    } else {
      RunAppend(s, t[..|t| - 1]);
      assert (s + t)[..|s + t| - 1] == s + t[..|t| - 1];
    }
  }

  /** The clock never runs backwards along the steps that read it. */
  ghost predicate Timely(steps: seq<Step>) {
    forall i, j :: 0 <= i < j < |steps| && Timed(steps[i]) && Timed(steps[j]) ==> steps[i].now <= steps[j].now
  }

  predicate Timed(s: Step) {
    s.Refused? || s.Callback? || s.Retry? || s.Beat?
  }

  /** The step sets the reconnect timer. */
  predicate Arms(c: Conn, s: Step) {
    || s.Refused?
    || (s.Callback? && (s.e.ConnectionError? || s.e.WsiDestroy? || (s.e.ConnectionClosed? && c.state != Closing)))
  }

  ghost predicate Attempt(steps: seq<Step>, i: nat)
    requires i < |steps|
  {
    steps[i].Retry? && RetryDue(Run(steps[..i]), steps[i].now)
  }

  ghost predicate Heartbeat(steps: seq<Step>, i: nat)
    requires i < |steps|
  {
    steps[i].Beat? && BeatDue(Run(steps[..i]), steps[i].now)
  }

  lemma RunStep(steps: seq<Step>, i: nat)
    requires i < |steps|
    ensures Run(steps[..i + 1]) == Next(Run(steps[..i]), steps[i])
  {
    assert steps[..i + 1][..i] == steps[..i];
  }

  lemma ElapsedIsReal(now: nat, at: nat)
    requires at <= now
    ensures Elapsed(now, at % TWO_32) == (now - at) % TWO_32 <= now - at
  {}

  /** A running reconnect timer was set by some step, and no attempt has been made since. */
  lemma {:induction false} ArmedBy(steps: seq<Step>, j: nat) returns (at: nat)
    requires j <= |steps| && Run(steps[..j]).reconnect != 0
    ensures at < j && Arms(Run(steps[..at]), steps[at])
    ensures Run(steps[..j]).reconnect == steps[at].now % TWO_32
    ensures forall i :: at <= i < j ==> !Attempt(steps, i)
  {
    RunStep(steps, j - 1);
    if Arms(Run(steps[..j - 1]), steps[j - 1]) {
      at := j - 1;
    } else {
      at := ArmedBy(steps, j - 1);
    }
  }

  /** In every run, attempts to reconnect are at least five seconds apart. */
  lemma AttemptsAreSpaced(steps: seq<Step>, i: nat, j: nat)
    requires Timely(steps) && i < j < |steps| && Attempt(steps, i) && Attempt(steps, j)
    ensures steps[j].now >= steps[i].now + 5
  {
    var at := ArmedBy(steps, j);
    assert at > i;
    ElapsedIsReal(steps[j].now, steps[at].now);
  }

  /** The step starts the heartbeat interval afresh. */
  ghost predicate Marks(steps: seq<Step>, i: nat)
    requires i < |steps|
  {
    Heartbeat(steps, i) || (steps[i].Callback? && steps[i].e.Established?)
  }

  lemma {:induction false} MarkedBy(steps: seq<Step>, j: nat) returns (at: nat)
    requires j <= |steps| && Run(steps[..j]).heartbeat != 0
    ensures at < j && Marks(steps, at)
    ensures Run(steps[..j]).heartbeat == steps[at].now % TWO_32
    ensures forall i :: at < i < j ==> !Marks(steps, i)
  {
    RunStep(steps, j - 1);
    if Marks(steps, j - 1) {
      at := j - 1;
    } else {
      at := MarkedBy(steps, j - 1);
    }
  }

  /** In every run, a heartbeat comes only in an open connection, at least 300 seconds after the one before it and
      after the connection was established. */
  lemma HeartbeatsAreSpaced(steps: seq<Step>, i: nat, j: nat)
    requires Timely(steps) && i < j < |steps| && Marks(steps, i) && Heartbeat(steps, j)
    ensures Run(steps[..j]).state == Open
    ensures steps[j].now >= steps[i].now + 300
  {
    var at := MarkedBy(steps, j);
    assert at >= i;
    ElapsedIsReal(steps[j].now, steps[at].now);
  }

  /** The connection is meant to stay up: a context was made, and no close and no teardown has come since. */
  ghost predicate Up(steps: seq<Step>) {
    if steps == [] then false
    else
      var c, s, was := Run(steps[..|steps| - 1]), steps[|steps| - 1], Up(steps[..|steps| - 1]);
      if !c.context && Next(c, s).context then true
      else if s.Shut? || (s.Callback? && s.e.ProtocolDestroy?) then false
      else was
  }

  lemma UpStep(steps: seq<Step>, i: nat)
    requires i < |steps|
    ensures (Up(steps[..i + 1])
      <==> (
        if !Run(steps[..i]).context && Run(steps[..i + 1]).context then true
        else if steps[i].Shut? || (steps[i].Callback? && steps[i].e.ProtocolDestroy?) then false
        else Up(steps[..i])))
  {
    RunStep(steps, i);
    assert steps[..i + 1][..i] == steps[..i];
  }

  lemma {:induction false} UpIsPrepared(steps: seq<Step>, j: nat)
    requires j <= |steps| && Up(steps[..j])
    ensures Run(steps[..j]).context && Run(steps[..j]).state != Closing
  {
    if j == 0 {
    } else {
      RunStep(steps, j - 1);
      UpStep(steps, j - 1);
      if Up(steps[..j - 1]) { UpIsPrepared(steps, j - 1); }
    }
  }

  /** A poll retries exactly when five seconds have passed since `at` on the timer's clock. */
  ghost predicate RetriedAfter(c: Conn, at: nat) {
    forall now :: (RetryDue(c, now)
      <==> at % TWO_32 != 0 && Elapsed(now, at % TWO_32) >= 5)
  }

  /** While it is meant to stay up, a closed connection has its reconnect timer set by the step that closed it
      or a later one, so a poll retries it exactly when five seconds have passed on the timer's clock. */
  lemma {:induction false} ClosedIsRetried(steps: seq<Step>, j: nat) returns (at: nat)
    requires j <= |steps| && Up(steps[..j]) && Run(steps[..j]).state == Closed
    ensures at < j && Arms(Run(steps[..at]), steps[at])
    ensures Run(steps[..j]).reconnect == steps[at].now % TWO_32
    ensures RetriedAfter(Run(steps[..j]), steps[at].now)
  {
    RunStep(steps, j - 1);
    UpStep(steps, j - 1);
    UpIsPrepared(steps, j);
    UpIsPrepared(steps, j - 1);
    if Arms(Run(steps[..j - 1]), steps[j - 1]) {
      at := j - 1;
    } else {
      at := ClosedIsRetried(steps, j - 1);
    }
  }

  // ---------------------------------------------------------------------------
  // Open, and the heartbeat
  // ---------------------------------------------------------------------------

  /** The step takes an open connection out of that state. */
  predicate Leaves(c: Conn, s: Step) {
    || s.Refused?
    || (s.Prepare? && (c.context || s.ok))
    || (s.Shut? && c.context)
    || (s.Callback? && (Closes(s.e) || s.e.ProtocolDestroy?))
  }

  /** Step i established the connection and none up to step j took it out of that state. */
  ghost predicate OpenFrom(steps: seq<Step>, i: nat, j: nat)
    requires i < j <= |steps|
  {
    && steps[i].Callback? && steps[i].e.Established?
    && forall k :: i < k < j ==> !Leaves(Run(steps[..k]), steps[k])
  }

  /** In every run the connection is open exactly since the library established it. */
  lemma {:induction false} OpenSinceEstablished(steps: seq<Step>, j: nat)
    requires j <= |steps|
    ensures Run(steps[..j]).state == Open <==> exists i :: 0 <= i < j && OpenFrom(steps, i, j)
  {
    if j == 0 {
    } else {
      var n := j - 1;
      RunStep(steps, n);
      OpenSinceEstablished(steps, n);
      if steps[n].Callback? && steps[n].e.Established? {
        assert OpenFrom(steps, n, j);
      } else {
        OpenStep(steps, n, j);
        OpenNext(Run(steps[..n]), steps[n]);
      }
    }
  }

  lemma OpenNext(c: Conn, s: Step)
    requires !(s.Callback? && s.e.Established?)
    ensures Next(c, s).state == Open <==> c.state == Open && !Leaves(c, s)
  {}

  lemma OpenStep(steps: seq<Step>, n: nat, j: nat)
    requires n + 1 == j <= |steps| && !(steps[n].Callback? && steps[n].e.Established?)
    ensures (exists i :: 0 <= i < j && OpenFrom(steps, i, j))
      <==> (exists i :: 0 <= i < n && OpenFrom(steps, i, n)) && !Leaves(Run(steps[..n]), steps[n])
  {
    if i :| 0 <= i < j && OpenFrom(steps, i, j) {
      assert i < n && OpenFrom(steps, i, n);
    }
    if !Leaves(Run(steps[..n]), steps[n]) {
      if i :| 0 <= i < n && OpenFrom(steps, i, n) {
        assert OpenFrom(steps, i, j);
      }
    }
  }

  /** In an open connection a heartbeat falls due exactly 300 seconds after the last one, or after the connection was
      established if there was none since; never if that time read as zero. */
  lemma HeartbeatFallsDue(steps: seq<Step>, at: nat, j: nat, now: nat)
    requires at < j <= |steps| && Run(steps[..j]).state == Open
    requires Marks(steps, at) && forall i :: at < i < j ==> !Marks(steps, i)
    ensures BeatDue(Run(steps[..j]), now)
      <==> steps[at].now % TWO_32 != 0 && (now - steps[at].now % TWO_32) % TWO_32 >= 300
  {
    MarkStands(steps, at, j);
  }

  lemma {:induction false} MarkStands(steps: seq<Step>, at: nat, j: nat)
    requires at < j <= |steps|
    requires Marks(steps, at) && forall i :: at < i < j ==> !Marks(steps, i)
    ensures Run(steps[..j]).state == Open ==> Run(steps[..j]).heartbeat == steps[at].now % TWO_32
  {
    RunStep(steps, j - 1);
    if j == at + 1 {
    } else {
      MarkStands(steps, at, j - 1);
      assert !Marks(steps, j - 1);
    }
  }

  // ---------------------------------------------------------------------------
  // Closing on request
  // ---------------------------------------------------------------------------

  /** The step neither settles a close on request nor starts afresh. */
  predicate Quiet(s: Step) {
    s.Shut? || s.Retry? || s.Beat? || (s.Callback? && !Settles(s.e))
  }

  lemma {:induction false} StaysClosing(c: Conn, quiet: seq<Step>)
    requires c.state == Closing && forall i :: 0 <= i < |quiet| ==> Quiet(quiet[i])
    ensures RunFrom(c, quiet) == c
    decreases |quiet|
  {
    if quiet == [] {
    } else {
      StaysClosing(c, quiet[..|quiet| - 1]);
    }
  }

  /** After a close on request it is the first closing callback that counts. If the library reports the connection
      closed, the reconnect timer stays as it stood when the close was asked for, so that no poll retries exactly if
      it was not running then; an error or a destroyed socket sets it. */
  lemma ClosedOnRequest(before: seq<Step>, quiet: seq<Step>, e: Event, now: nat)
    requires Run(before).context && Closes(e)
    requires forall i :: 0 <= i < |quiet| ==> Quiet(quiet[i])
    ensures var c, after := Run(before), Run(before + [Shut] + quiet + [Callback(e, now)]);
      && after.state == Closed
      && after.reconnect == (if e.ConnectionClosed? then c.reconnect else now % TWO_32)
      && (e.ConnectionClosed? ==> ((forall later :: !RetryDue(after, later)) <==> c.reconnect == 0))
  {
    var c := Run(before);
    RunAppend(before, [Shut]);
    assert RunFrom(c, [Shut]) == c.(state := Closing);
    RunAppend(before + [Shut], quiet);
    StaysClosing(c.(state := Closing), quiet);
    RunAppend(before + [Shut] + quiet, [Callback(e, now)]);
    var after := Run(before + [Shut] + quiet + [Callback(e, now)]);
    if e.ConnectionClosed? && c.reconnect != 0 {
      assert RetryDue(after, c.reconnect + RECONNECT_INTERVAL);
    }
  }

  /** It can be running: the old socket's end, reported after a retry has begun, sets it, and establishing the new
      connection does not clear it. A close on request is then retried at once. */
  lemma StaleTimer(c: Conn)
    requires c == Conn(Connecting, 0, 0, true)
    ensures var after := RunFrom(c, [Callback(WsiDestroy, 16), Callback(Established, 17), Shut,
                                     Callback(ConnectionClosed, 100)]);
      RetryDue(after, 100)
  {
    FourSteps(c, Callback(WsiDestroy, 16), Callback(Established, 17), Shut, Callback(ConnectionClosed, 100));
  }

  lemma FourSteps(c: Conn, s: Step, t: Step, u: Step, v: Step)
    ensures RunFrom(c, [s, t, u, v]) == Next(Next(Next(Next(c, s), t), u), v)
  {
    var all := [s, t, u, v];
    assert all[..3] == [s, t, u] && [s, t, u][..2] == [s, t] && [s, t][..1] == [s] && [s][..0] == [];
    assert RunFrom(c, [s, t, u]) == Next(RunFrom(c, [s, t]), u);
    assert RunFrom(c, [s, t]) == Next(RunFrom(c, [s]), t);
  }

  /** And while the timer is not running no poll retries, until a step sets it. */
  lemma {:induction false} QuietUntilArmed(steps: seq<Step>, i: nat, j: nat)
    requires i <= j <= |steps| && Run(steps[..i]).reconnect == 0
    requires forall k :: i <= k < j ==> !Arms(Run(steps[..k]), steps[k])
    ensures Run(steps[..j]).reconnect == 0 && forall now :: !RetryDue(Run(steps[..j]), now)
  {
    if j == i {
    } else {
      QuietUntilArmed(steps, i, j - 1);
      RunStep(steps, j - 1);
    }
  }

  // ---------------------------------------------------------------------------
  // After a teardown
  // ---------------------------------------------------------------------------

  /** The callback closes the connection. */
  predicate Closes(e: Event) {
    e.ConnectionError? || e.ConnectionClosed? || e.WsiDestroy?
  }

  /** The callback settles whether a poll is to reconnect. */
  predicate Settles(e: Event) {
    Closes(e) || e.ProtocolDestroy? || e.Established?
  }

  ghost predicate CallbacksOnly(steps: seq<Step>) {
    forall i :: 0 <= i < |steps| ==> steps[i].Callback?
  }

  /** Callback i closes the connection at a time that does not read as zero, and none after it closes it again,
      establishes it or tears it down. */
  ghost predicate ClosedLast(steps: seq<Step>, i: nat)
    requires i < |steps| && CallbacksOnly(steps)
  {
    && Closes(steps[i].e) && steps[i].now % TWO_32 != 0
    && forall k :: i < k < |steps| ==> !Settles(steps[k].e)
  }

  lemma ClosedLastStep(before: seq<Step>, s: Step)
    requires CallbacksOnly(before) && s.Callback?
    ensures CallbacksOnly(before + [s])
    ensures ClosedLast(before + [s], |before|) <==> Closes(s.e) && s.now % TWO_32 != 0
    ensures forall i :: 0 <= i < |before| ==>
      (ClosedLast(before + [s], i) <==> ClosedLast(before, i) && !Settles(s.e))
  {
    var steps := before + [s];
    forall i | 0 <= i < |before|
      ensures ClosedLast(steps, i) <==> ClosedLast(before, i) && !Settles(s.e)
    {
      assert steps[|before|] == s && forall k :: 0 <= k < |before| ==> steps[k] == before[k];
    }
  }

  /** After a teardown and whatever callbacks follow, the connection is closed with its timer set exactly if one of
      them closed it last, and the timer holds the time of that one. */
  lemma {:induction false} TimerAfterTeardown(steps: seq<Step>)
    requires CallbacksOnly(steps)
    ensures RunFrom(START, steps).state != Closing && !RunFrom(START, steps).context
    ensures forall i :: 0 <= i < |steps| && ClosedLast(steps, i) ==>
      RunFrom(START, steps).state == Closed && RunFrom(START, steps).reconnect == steps[i].now % TWO_32
    ensures RunFrom(START, steps).state == Closed && RunFrom(START, steps).reconnect != 0 ==>
      exists i :: 0 <= i < |steps| && ClosedLast(steps, i)
  {
    if steps == [] {
    } else {
      var before, s := steps[..|steps| - 1], steps[|steps| - 1];
      assert steps == before + [s];
      TimerAfterTeardown(before);
      ClosedLastStep(before, s);
      TimerStep(before, s);
    }
  }

  lemma TimerStep(before: seq<Step>, s: Step)
    requires CallbacksOnly(before) && s.Callback?
    requires RunFrom(START, before).state != Closing
    requires RunFrom(START, before).state == Closed && RunFrom(START, before).reconnect != 0 ==>
      exists i :: 0 <= i < |before| && ClosedLast(before, i)
    ensures CallbacksOnly(before + [s])
    ensures RunFrom(START, before + [s]).state == Closed && RunFrom(START, before + [s]).reconnect != 0 ==>
      exists i :: 0 <= i < |before| + 1 && ClosedLast(before + [s], i)
  {
    var c, r := RunFrom(START, before), RunFrom(START, before + [s]);
    assert (before + [s])[..|before|] == before;
    ClosedLastStep(before, s);
    if r.state == Closed && r.reconnect != 0 {
      if Closes(s.e) {
        assert ClosedLast(before + [s], |before|);
      } else {
        var i :| 0 <= i < |before| && ClosedLast(before, i);
        assert ClosedLast(before + [s], i);
      }
    }
  }

  /**
   The library's teardown is logged as one to "stay down forever". After it and any callbacks, a
   poll tries to reconnect, and would make a new context, exactly if one of the callbacks closed
   the connection again, none after that established it or tore it down, and five seconds have
   passed. So it stays down for good exactly if no callback has the last word in this way.
   */
  lemma DownUntilClosedAgain(steps: seq<Step>, now: nat)
    requires CallbacksOnly(steps)
    ensures RetryDue(RunFrom(START, steps), now)
      <==> exists i :: 0 <= i < |steps| && ClosedLast(steps, i)
             && Elapsed(now, steps[i].now % TWO_32) >= RECONNECT_INTERVAL
    ensures (forall later :: !RetryDue(RunFrom(START, steps), later))
      <==> !exists i :: 0 <= i < |steps| && ClosedLast(steps, i)
  {
    TimerAfterTeardown(steps);
    if i :| 0 <= i < |steps| && ClosedLast(steps, i) {
      ElapsedIsReal(steps[i].now + RECONNECT_INTERVAL, steps[i].now);
      assert RetryDue(RunFrom(START, steps), steps[i].now + RECONNECT_INTERVAL);
    }
  }

  /** The shortest such run: a socket destroyed after the teardown, and a poll five seconds later starts over. */
  lemma TeardownIsNotFinal(now: nat)
    requires now % TWO_32 != 0
    ensures var c := AfterCallback(AfterCallback(Conn(Open, 0, 0, true), ProtocolDestroy, now), WsiDestroy, now);
      && RetryDue(c, now + RECONNECT_INTERVAL)
      && Next(c, Retry(now + RECONNECT_INTERVAL, true)) == Conn(Connecting, 0, 0, true)
  {}
}
