/**
 The websocket client: the connection machine and the two outgoing queues, moved by connecting,
 sending, polling, closing and the library's callbacks. The library's answers, the callbacks it
 makes from inside a call, and the clock are given to each operation.
 */
module WebSock {
  import opened Options
  import opened Bits
  import opened Rings
  import opened Connections
  import opened OutgoingBytes

  /** A callback, when it comes, and what the library answers should it write to the ping and the text queue. */
  datatype Occurrence = Occurrence(e: Event, now: nat, pingResult: int, textResult: int)

  /** How an attempt to connect goes: whether a context can be made if there is none, the callbacks made from inside
      the library's connect, and the time at which it answers no, if it does. */
  datatype Attempted = Attempted(ok: bool, during: seq<Occurrence>, refused: Option<nat>)

  function Callbacks(os: seq<Occurrence>): (steps: seq<Step>)
    ensures |steps| == |os|
  {
    seq(|os|, i requires 0 <= i < |os| => Callback(os[i].e, os[i].now))
  }

  /** What a callback does to a queue. */
  function OnQueue(e: Event, result: int): seq<QueueStep> {
    match e
    case Writeable => [Offered(result)]
    case ProtocolDestroy => [Freed]
    case _ => []
  }

  function PingSteps(os: seq<Occurrence>): seq<QueueStep> {
    if os == [] then [] else PingSteps(os[..|os| - 1]) + OnQueue(os[|os| - 1].e, os[|os| - 1].pingResult)
  }

  function TextSteps(os: seq<Occurrence>): seq<QueueStep> {
    if os == [] then [] else TextSteps(os[..|os| - 1]) + OnQueue(os[|os| - 1].e, os[|os| - 1].textResult)
  }

  /** What follows once there is a context. */
  function Outcome(c: Conn, a: Attempted): seq<Step> {
    if !c.context && !a.ok then []
    else Callbacks(a.during) + Refusal(a)
  }

  function Refusal(a: Attempted): seq<Step> {
    if a.refused.Some? then [Refused(a.refused.value)] else []
  }

  /** Callbacks reach the client only while there is a context to make them. */
  function Heard(c: Conn, os: seq<Occurrence>): seq<Occurrence> {
    if c.context then os else []
  }

  function Sizing(c: Conn): seq<QueueStep> {
    if c.context then [] else [Sized]
  }

  function Calls(c: Conn, a: Attempted): seq<Occurrence> {
    if !c.context && !a.ok then [] else a.during
  }

  function Trying(c: Conn, now: nat, a: Attempted): seq<Step> {
    [Retry(now, a.ok)] + if RetryDue(c, now) then Outcome(c, a) else []
  }

  /** The steps of a poll up to the library's service. */
  function Opening(c: Conn, now: nat, a: Attempted, later: nat): seq<Step> {
    Trying(c, now, a) + [Beat(later)]
  }

  /** The steps of one poll from state c; service is called for only if the earlier ones leave a context. */
  function PollSteps(c: Conn, now: nat, a: Attempted, later: nat, os: seq<Occurrence>): seq<Step> {
    var opening := Opening(c, now, a, later);
    opening + Callbacks(Heard(RunFrom(c, opening), os))
  }

  /** What the three parts of a poll do to the queues. */
  function TryPing(c: Conn, now: nat, a: Attempted): seq<QueueStep> {
    if RetryDue(c, now) then Sizing(c) + PingSteps(Calls(c, a)) else []
  }

  function TryText(c: Conn, now: nat, a: Attempted): seq<QueueStep> {
    if RetryDue(c, now) then Sizing(c) + TextSteps(Calls(c, a)) else []
  }

  function BeatPing(c: Conn, now: nat, stamp: seq<byte>): seq<QueueStep> {
    if BeatDue(c, now) && stamp != [] then [Queued(stamp)] else []
  }

  function PollPing(c: Conn, now: nat, a: Attempted, later: nat, stamp: seq<byte>, os: seq<Occurrence>): seq<QueueStep>
  {
    TryPing(c, now, a) + BeatPing(RunFrom(c, Trying(c, now, a)), later, stamp)
    + PingSteps(Heard(RunFrom(c, Opening(c, now, a, later)), os))
  }

  function PollText(c: Conn, now: nat, a: Attempted, later: nat, os: seq<Occurrence>): seq<QueueStep> {
    TryText(c, now, a) + TextSteps(Heard(RunFrom(c, Opening(c, now, a, later)), os))
  }

  /** Callbacks that settle nothing leave a closing connection closing. */
  lemma Unsettled(steps: seq<Step>, os: seq<Occurrence>)
    requires Run(steps).state == Closing
    ensures (forall i :: 0 <= i < |os| ==> !Settles(os[i].e)) ==> Run(steps + Callbacks(os)) == Run(steps)
  {
    RunAppend(steps, Callbacks(os));
    if forall i :: 0 <= i < |os| ==> !Settles(os[i].e) { StaysClosing(Run(steps), Callbacks(os)); }
  }

  class WebSocket {
    var state: ReadyState
    var reconnect: uint32
    var heartbeat: uint32
    var context: bool
    const ping: Outgoing
    const text: Outgoing
    ghost var steps: seq<Step>

    ghost function Conn(): Conn
      reads `state, `reconnect, `heartbeat, `context
    {
      Connections.Conn.Conn(state, reconnect, heartbeat, context)
    }

    ghost predicate Queues()
      reads ping, ping.ring, ping.ring.buff, text, text.ring, text.ring.buff
    {
      && ping.Valid() && text.Valid()
      && ping != text && ping.ring != text.ring && ping.ring.buff != text.ring.buff
    }

    ghost predicate Valid()
      reads this, ping, ping.ring, ping.ring.buff, text, text.ring, text.ring.buff
    {
      Queues() && Conn() == Run(steps)
    }

    constructor ()
      ensures Valid() && steps == [] && ping.steps == text.steps == []
      ensures fresh(ping) && fresh(ping.ring) && fresh(ping.ring.buff)
      ensures fresh(text) && fresh(text.ring) && fresh(text.ring.buff)
    {
      state, reconnect, heartbeat, context, steps := Closed, 0, 0, false, [];
      ping := new Outgoing();
      text := new Outgoing();
    }

    ghost method Record(s: Step)
      modifies `steps
      ensures steps == old(steps) + [s] && Run(steps) == Next(Run(old(steps)), s)
    {
      steps := steps + [s];
      assert steps[..|steps| - 1] == old(steps);
    }

    method SendPing(msg: seq<byte>)
      requires Queues()
      modifies ping`steps, ping.ring, ping.ring.buff
      ensures Queues() && ping.ring.buff == old(ping.ring.buff)
      ensures ping.steps == old(ping.steps) + if msg == [] then [] else [Queued(msg)]
      ensures ping.ring.Contents() == Keep(old(ping.ring.Contents()) + Clamped(msg), ping.ring.buff.Length)
    {
      ping.Send(msg);
    }

    method SendText(msg: seq<byte>)
      requires Queues()
      modifies text`steps, text.ring, text.ring.buff
      ensures Queues() && text.ring.buff == old(text.ring.buff)
      ensures text.steps == old(text.steps) + if msg == [] then [] else [Queued(msg)]
      ensures text.ring.Contents() == Keep(old(text.ring.Contents()) + Clamped(msg), text.ring.buff.Length)
    {
      text.Send(msg);
    }

    method WriteBoth(pingResult: int, textResult: int)
      requires Queues()
      modifies ping, ping.ring, ping.ring.buff, text, text.ring, text.ring.buff
      ensures Queues() && ping.ring.buff == old(ping.ring.buff) && text.ring.buff == old(text.ring.buff)
      ensures ping.steps == old(ping.steps) + [Offered(pingResult)]
      ensures text.steps == old(text.steps) + [Offered(textResult)]
      ensures Went(old(ping.ring.Contents()), pingResult, old(ping.accepted), ping.accepted, ping.ring.Contents())
      ensures Went(old(text.ring.Contents()), textResult, old(text.accepted), text.accepted, text.ring.Contents())
    {
      ping.WriteData(pingResult);
      text.WriteData(textResult);
    }

    method FreeBoth()
      requires Queues()
      modifies ping, ping.ring, text, text.ring
      ensures Queues() && fresh(ping.ring.buff) && fresh(text.ring.buff)
      ensures ping.steps == old(ping.steps) + [Freed] && ping.accepted == old(ping.accepted)
      ensures text.steps == old(text.steps) + [Freed] && text.accepted == old(text.accepted)
      ensures ping.ring.Contents() == text.ring.Contents() == []
    {
      ping.Free();
      text.Free();
    }

    method OnEvent(o: Occurrence)
      requires Valid()
      modifies this, ping, ping.ring, ping.ring.buff, text, text.ring, text.ring.buff
      ensures Valid() && steps == old(steps) + [Callback(o.e, o.now)]
      ensures ping.steps == old(ping.steps) + OnQueue(o.e, o.pingResult)
      ensures text.steps == old(text.steps) + OnQueue(o.e, o.textResult)
      ensures o.e.Writeable? ==>
        && Went(old(ping.ring.Contents()), o.pingResult, old(ping.accepted), ping.accepted, ping.ring.Contents())
        && Went(old(text.ring.Contents()), o.textResult, old(text.accepted), text.accepted, text.ring.Contents())
      ensures !o.e.Writeable? ==> ping.accepted == old(ping.accepted) && text.accepted == old(text.accepted)
      ensures o.e.ProtocolDestroy? ==> ping.ring.Contents() == text.ring.Contents() == []
      ensures !o.e.Writeable? && !o.e.ProtocolDestroy? ==>
        ping.ring.Contents() == old(ping.ring.Contents()) && text.ring.Contents() == old(text.ring.Contents())
      ensures ping.ring.buff == old(ping.ring.buff) || fresh(ping.ring.buff)
      ensures text.ring.buff == old(text.ring.buff) || fresh(text.ring.buff)
    {
      Record(Callback(o.e, o.now));
      MoveState(o.e, o.now);
      if o.e.Writeable? {
        WriteBoth(o.pingResult, o.textResult);
      } else if o.e.ProtocolDestroy? {
        FreeBoth();
      }
    }

    /** The callback's effect on the connection itself. */
    method MoveState(e: Event, now: nat)
      modifies `state, `reconnect, `heartbeat, `context
      ensures Conn() == AfterCallback(old(Conn()), e, now)
    {
      match e {
        case Established =>
          state := Open;
          heartbeat := now % TWO_32;
        case ConnectionError =>
          state := Closed;
          reconnect := now % TWO_32;
        case ConnectionClosed =>
          var force := state == Closing;
          state := Closed;
          if !force {
            reconnect := now % TWO_32;
          }
        case ProtocolDestroy =>
          reconnect, heartbeat, state, context := 0, 0, Closed, false;
        case WsiDestroy =>
          state := Closed;
          reconnect := now % TWO_32;
        case _ =>
      }
    }

    /** What has been recorded since the run and the queues' runs stood at s0, p0 and t0. */
    ghost predicate Did(s0: seq<Step>, p0: seq<QueueStep>, t0: seq<QueueStep>,
                        s: seq<Step>, p: seq<QueueStep>, t: seq<QueueStep>)
      reads `steps, ping`steps, text`steps
    {
      steps == s0 + s && ping.steps == p0 + p && text.steps == t0 + t
    }

    /** The library calling back any number of times from inside one of its own functions. */
    method Service(os: seq<Occurrence>)
      requires Valid()
      modifies this, ping, ping.ring, ping.ring.buff, text, text.ring, text.ring.buff
      ensures Valid() && Did(old(steps), old(ping.steps), old(text.steps), Callbacks(os), PingSteps(os), TextSteps(os))
      ensures ping.ring.buff == old(ping.ring.buff) || fresh(ping.ring.buff)
      ensures text.ring.buff == old(text.ring.buff) || fresh(text.ring.buff)
    {
      ghost var s0, p0, t0 := steps, ping.steps, text.steps;
      for i := 0 to |os|
        invariant Valid() && Did(s0, p0, t0, Callbacks(os[..i]), PingSteps(os[..i]), TextSteps(os[..i]))
        invariant ping.ring.buff == old(ping.ring.buff) || fresh(ping.ring.buff)
        invariant text.ring.buff == old(text.ring.buff) || fresh(text.ring.buff)
      {
        OneMore(s0, p0, t0, os, i);
        OnEvent(os[i]);
      }
      assert os[..|os|] == os;
    }

    static lemma OneMore(s0: seq<Step>, p0: seq<QueueStep>, t0: seq<QueueStep>, os: seq<Occurrence>, i: nat)
      requires i < |os|
      ensures s0 + Callbacks(os[..i + 1]) == s0 + Callbacks(os[..i]) + [Callback(os[i].e, os[i].now)]
      ensures p0 + PingSteps(os[..i + 1]) == p0 + PingSteps(os[..i]) + OnQueue(os[i].e, os[i].pingResult)
      ensures t0 + TextSteps(os[..i + 1]) == t0 + TextSteps(os[..i]) + OnQueue(os[i].e, os[i].textResult)
    {
      assert os[..i + 1][..i] == os[..i];
    }

    method PrepareBoth()
      requires Queues()
      modifies ping, ping.ring, text, text.ring
      ensures Queues()
      ensures ping.ring.buff == old(ping.ring.buff) || fresh(ping.ring.buff)
      ensures text.ring.buff == old(text.ring.buff) || fresh(text.ring.buff)
      ensures ping.steps == old(ping.steps) + [Sized]
      ensures text.steps == old(text.steps) + [Sized]
    {
      ping.Prepare();
      text.Prepare();
    }

    /** A context and storage, if there was no context before; `ok` is whether one can be made. */
    method PrepareContext(ok: bool)
      requires Queues()
      modifies `context, ping, ping.ring, text, text.ring
      ensures Queues() && context == (old(context) || ok)
      ensures ping.ring.buff == old(ping.ring.buff) || fresh(ping.ring.buff)
      ensures text.ring.buff == old(text.ring.buff) || fresh(text.ring.buff)
      ensures ping.steps == old(ping.steps) + Sizing(old(Conn()))
      ensures text.steps == old(text.steps) + Sizing(old(Conn()))
    {
      if !context {
        PrepareBoth();
        context := ok;
      }
    }

    /** The part of connecting that has a context to work with. */
    method Contact(a: Attempted, ghost first: Step) returns (rc: int)
      requires Queues() && context && Next(Run(steps), first) == Prepared(Conn(), true)
      modifies this, ping, ping.ring, ping.ring.buff, text, text.ring, text.ring.buff
      ensures Valid()
      ensures Did(old(steps) + [first], old(ping.steps), old(text.steps),
                  Callbacks(a.during) + Refusal(a), PingSteps(a.during), TextSteps(a.during))
      ensures ping.ring.buff == old(ping.ring.buff) || fresh(ping.ring.buff)
      ensures text.ring.buff == old(text.ring.buff) || fresh(text.ring.buff)
      ensures rc == if a.refused.None? then 0 else -1
    {
      state := Connecting;
      Record(first);
      ghost var s0, p0, t0 := steps, ping.steps, text.steps;
      Service(a.during);
      rc := Answer(a);
      Regroup(s0, Callbacks(a.during), Refusal(a));
    }

    method Answer(a: Attempted) returns (rc: int)
      requires Conn() == Run(steps)
      modifies `state, `reconnect, `steps
      ensures Conn() == Run(steps) && steps == old(steps) + Refusal(a)
      ensures rc == if a.refused.None? then 0 else -1
    {
      if a.refused.Some? {
        Record(Refused(a.refused.value));
        state := Closed;
        reconnect := a.refused.value % TWO_32;
        return -1;
      }
      rc := 0;
    }

    static lemma Regroup<T>(a: seq<T>, b: seq<T>, c: seq<T>)
      ensures a + b + c == a + (b + c) && a + b + [] == a + b
    {}

    /** `first` is how the run accounts for the start of it: a step of its own, or part of a poll's retry. */
    method Connect(a: Attempted, ghost first: Step) returns (rc: int)
      requires Queues() && Next(Run(steps), first) == Prepared(Conn(), a.ok)
      modifies this, ping, ping.ring, ping.ring.buff, text, text.ring, text.ring.buff
      ensures Valid()
      ensures var c := old(Conn());
        Did(old(steps) + [first], old(ping.steps) + Sizing(c), old(text.steps) + Sizing(c),
            Outcome(c, a), PingSteps(Calls(c, a)), TextSteps(Calls(c, a)))
      ensures ping.ring.buff == old(ping.ring.buff) || fresh(ping.ring.buff)
      ensures text.ring.buff == old(text.ring.buff) || fresh(text.ring.buff)
      ensures rc == if (old(context) || a.ok) && a.refused.None? then 0 else -1
    {
      AttemptCases(Conn(), a);
      PrepareContext(a.ok);
      if !context {
        Record(first);
        return -1;
      }
      rc := Contact(a, first);
    }

    static lemma AttemptCases(c: Conn, a: Attempted)
      ensures !c.context && !a.ok ==> Outcome(c, a) == [] && PingSteps(Calls(c, a)) == TextSteps(Calls(c, a)) == []
      ensures c.context || a.ok ==> Outcome(c, a) == Callbacks(a.during) + Refusal(a) && Calls(c, a) == a.during
    {}

    method Close(os: seq<Occurrence>)
      requires Valid()
      modifies this, ping, ping.ring, ping.ring.buff, text, text.ring, text.ring.buff
      ensures Valid()
      ensures var c := old(Conn());
        Did(old(steps) + [Shut], old(ping.steps), old(text.steps),
            Callbacks(Heard(c, os)), PingSteps(Heard(c, os)), TextSteps(Heard(c, os)))
      ensures old(context) && (forall i :: 0 <= i < |os| ==> !Settles(os[i].e)) ==>
        state == Closing && reconnect == old(reconnect)
      ensures if old(context) then steps == old(steps) + [Shut] + Callbacks(os) else Conn() == old(Conn())
      ensures ping.ring.buff == old(ping.ring.buff) || fresh(ping.ring.buff)
      ensures text.ring.buff == old(text.ring.buff) || fresh(text.ring.buff)
    {
      Record(Shut);
      if context {
        state := Closing;
        Unsettled(steps, os);
        Service(os);
      }
    }

    method TryReconnect(now: nat, a: Attempted)
      requires Valid()
      modifies this, ping, ping.ring, ping.ring.buff, text, text.ring, text.ring.buff
      ensures Valid()
      ensures ping.ring.buff == old(ping.ring.buff) || fresh(ping.ring.buff)
      ensures text.ring.buff == old(text.ring.buff) || fresh(text.ring.buff)
      ensures var c := old(Conn());
        Did(old(steps), old(ping.steps), old(text.steps),
            Trying(c, now, a), TryPing(c, now, a), TryText(c, now, a))
    {
      if state == Closed && reconnect != 0 {
        if Elapsed(now, reconnect) >= RECONNECT_INTERVAL {
          Reconnect(now, a);
          return;
        }
      }
      Record(Retry(now, a.ok));
    }

    method Reconnect(now: nat, a: Attempted)
      requires Valid() && RetryDue(Conn(), now)
      modifies this, ping, ping.ring, ping.ring.buff, text, text.ring, text.ring.buff
      ensures Valid()
      ensures ping.ring.buff == old(ping.ring.buff) || fresh(ping.ring.buff)
      ensures text.ring.buff == old(text.ring.buff) || fresh(text.ring.buff)
      ensures var c := old(Conn());
        Did(old(steps), old(ping.steps), old(text.steps),
            [Retry(now, a.ok)] + Outcome(c, a), Sizing(c) + PingSteps(Calls(c, a)), Sizing(c) + TextSteps(Calls(c, a)))
    {
      ghost var c, s0, p0, t0 := Conn(), steps, ping.steps, text.steps;
      reconnect := 0;
      var _ := Connect(a, Retry(now, a.ok));
      Regroup(s0, [Retry(now, a.ok)], Outcome(c, a));
      Regroup(p0, Sizing(c), PingSteps(Calls(c, a)));
      Regroup(t0, Sizing(c), TextSteps(Calls(c, a)));
    }

    method PulseHeartbeat(now: nat, stamp: seq<byte>)
      requires Valid()
      modifies `steps, `heartbeat, ping`steps, ping.ring, ping.ring.buff
      ensures Valid() && ping.ring.buff == old(ping.ring.buff)
      ensures steps == old(steps) + [Beat(now)]
      ensures ping.steps == old(ping.steps) + BeatPing(old(Conn()), now, stamp)
      ensures BeatDue(old(Conn()), now) ==>
        && heartbeat == now % TWO_32
        && ping.ring.Contents() == Keep(old(ping.ring.Contents()) + Clamped(stamp), ping.ring.buff.Length)
      ensures !BeatDue(old(Conn()), now) ==>
        heartbeat == old(heartbeat) && ping.ring.Contents() == old(ping.ring.Contents())
    {
      Record(Beat(now));
      if state == Open && heartbeat != 0 {
        if Elapsed(now, heartbeat) >= HEARTBEAT_INTERVAL {
          heartbeat := now % TWO_32;
          SendPing(stamp);
        }
      }
    }

    /** One turn of the client's loop: retry, heartbeat, then the library's service if there is a context. */
    method Poll(now: nat, a: Attempted, later: nat, stamp: seq<byte>, os: seq<Occurrence>)
      requires Valid()
      modifies this, ping, ping.ring, ping.ring.buff, text, text.ring, text.ring.buff
      ensures Valid()
      ensures var c := old(Conn());
        Did(old(steps), old(ping.steps), old(text.steps), PollSteps(c, now, a, later, os),
            PollPing(c, now, a, later, stamp, os), PollText(c, now, a, later, os))
      ensures ping.ring.buff == old(ping.ring.buff) || fresh(ping.ring.buff)
      ensures text.ring.buff == old(text.ring.buff) || fresh(text.ring.buff)
    {
      ghost var c, s0, p0, t0 := Conn(), steps, ping.steps, text.steps;
      TryReconnect(now, a);
      RunAppend(s0, Trying(c, now, a));
      PulseHeartbeat(later, stamp);
      Regroup(s0, Trying(c, now, a), [Beat(later)]);
      RunAppend(s0, Opening(c, now, a, later));
      ghost var heard, beat := Heard(Conn(), os), BeatPing(RunFrom(c, Trying(c, now, a)), later, stamp);
      if context {
        Service(os);
      }
      Regroup(s0, Opening(c, now, a, later), Callbacks(heard));
      Regroup(t0, TryText(c, now, a), TextSteps(heard));
      Regroup(p0 + TryPing(c, now, a), beat, PingSteps(heard));
      Regroup(p0, TryPing(c, now, a), beat + PingSteps(heard));
      Regroup(TryPing(c, now, a), beat, PingSteps(heard));
    }
  }

  // ---------------------------------------------------------------------------
  // Polls and service, seen from outside
  // ---------------------------------------------------------------------------

  /** In an open connection a poll hears every callback of the library's service, and queues a heartbeat exactly if one
      is due; it does nothing else. */
  lemma PollWhenOpen(c: Conn, now: nat, a: Attempted, later: nat, stamp: seq<byte>, os: seq<Occurrence>)
    requires c.state == Open && c.context && stamp != []
    ensures PollSteps(c, now, a, later, os) == [Retry(now, a.ok), Beat(later)] + Callbacks(os)
    ensures PollText(c, now, a, later, os) == TextSteps(os)
    ensures PollPing(c, now, a, later, stamp, os)
      == (if c.heartbeat != 0 && (later - c.heartbeat) % TWO_32 >= 300 then [Queued(stamp)] else []) + PingSteps(os)
  {
    TwoSteps(c, Retry(now, a.ok), Beat(later));
    assert Trying(c, now, a) == [Retry(now, a.ok)];
    assert Opening(c, now, a, later) == [Retry(now, a.ok), Beat(later)];
    assert [] + TextSteps(os) == TextSteps(os);
  }

  /** A poll of a closed connection five seconds after its timer was set tries again: it hears the callbacks from inside
      the attempt and the refusal, if there is one, whether or not there was a context before. */
  lemma PollWhenRetrying(c: Conn, now: nat, a: Attempted, later: nat, stamp: seq<byte>, os: seq<Occurrence>)
    requires c.state == Closed && c.reconnect != 0 && (now - c.reconnect) % TWO_32 >= 5 && (c.context || a.ok)
    ensures var refusal := if a.refused.Some? then [Refused(a.refused.value)] else [];
      [Retry(now, a.ok)] + Callbacks(a.during) + refusal <= PollSteps(c, now, a, later, os)
    ensures (if c.context then [] else [Sized]) + TextSteps(a.during) <= PollText(c, now, a, later, os)
    ensures (if c.context then [] else [Sized]) + PingSteps(a.during) <= PollPing(c, now, a, later, stamp, os)
  {
    var tried := [Retry(now, a.ok)] + Callbacks(a.during) + Refusal(a);
    assert Trying(c, now, a) == tried;
    assert Opening(c, now, a, later) == tried + [Beat(later)];
    PrefixMore(tried, [Beat(later)], Callbacks(Heard(RunFrom(c, Opening(c, now, a, later)), os)));
    assert TryText(c, now, a) == (if c.context then [] else [Sized]) + TextSteps(a.during);
    assert TryPing(c, now, a) == (if c.context then [] else [Sized]) + PingSteps(a.during);
    PrefixMore(TryPing(c, now, a), BeatPing(RunFrom(c, Trying(c, now, a)), later, stamp),
               PingSteps(Heard(RunFrom(c, Opening(c, now, a, later)), os)));
  }

  /** Without a context, and nothing to retry, a poll hears nothing. */
  lemma PollWhenDown(c: Conn, now: nat, a: Attempted, later: nat, stamp: seq<byte>, os: seq<Occurrence>)
    requires c.state == Closed && !c.context && (c.reconnect == 0 || (now - c.reconnect) % TWO_32 < 5)
    ensures PollSteps(c, now, a, later, os) == [Retry(now, a.ok), Beat(later)]
    ensures PollText(c, now, a, later, os) == PollPing(c, now, a, later, stamp, os) == []
  {
    TwoSteps(c, Retry(now, a.ok), Beat(later));
    assert Trying(c, now, a) == [Retry(now, a.ok)];
    assert Opening(c, now, a, later) == [Retry(now, a.ok), Beat(later)];
  }

  lemma PrefixMore<T>(a: seq<T>, b: seq<T>, c: seq<T>)
    ensures a <= a + b + c
  {}

  lemma TwoSteps(c: Conn, s: Step, t: Step)
    ensures RunFrom(c, [s]) == Next(c, s) && RunFrom(c, [s, t]) == Next(Next(c, s), t)
  {
    assert [s, t][..1] == [s] && [s][..0] == [];
    assert RunFrom(c, []) == c;
  }

  /** Callbacks queue nothing, and each writeable one is an offer to the library. */
  lemma {:induction false} ServiceOffers(os: seq<Occurrence>, k: nat) returns (after: seq<QueueStep>)
    requires k < |os| && os[k].e.Writeable?
    ensures TextSteps(os) == TextSteps(os[..k]) + [Offered(os[k].textResult)] + after && QueuesNothing(after)
    decreases |os|
  {
    var front, o := os[..|os| - 1], os[|os| - 1];
    if k == |os| - 1 {
      after := [];
    } else {
      assert front[..k] == os[..k];
      var sooner := ServiceOffers(front, k);
      var more := OnQueue(o.e, o.textResult);
      after := sooner + more;
      InFour(TextSteps(os[..k]), [Offered(os[k].textResult)], sooner, more);
    }
  }

  lemma InFour<T>(a: seq<T>, b: seq<T>, c: seq<T>, d: seq<T>)
    ensures a + b + c + d == a + b + (c + d) && a + (b + c + d) == a + b + c + d
  {}

  predicate QueuesNothing(steps: seq<QueueStep>) {
    forall i :: 0 <= i < |steps| ==> !steps[i].Queued?
  }

  /** If nothing was thrown away, and in the library's service some writeable callback took as much as then waited, all
      the text that was ever queued has been accepted. */
  lemma TextGoesOut(before: seq<QueueStep>, os: seq<Occurrence>, k: nat)
    requires k < |os| && os[k].e.Writeable? && AllKept(before + TextSteps(os))
    requires os[k].textResult >= |RunQueue(before + TextSteps(os[..k])).pending|
    ensures RunQueue(before + TextSteps(os)).accepted == RunQueue(before + TextSteps(os)).queued
  {
    var after := ServiceOffers(os, k);
    InFour(before, TextSteps(os[..k]), [Offered(os[k].textResult)], after);
    AllGoesOut(before + TextSteps(os[..k]), os[k].textResult, after);
  }

  /** At any moment of any run: what the library took of a queue and what waits is what was queued exactly if nothing
      was thrown away, and a closed connection that is meant to stay up has its reconnect timer set. */
  lemma ClientInvariant(ws: WebSocket, q: Outgoing)
    requires ws.Valid() && q in {ws.ping, ws.text}
    ensures RunQueue(q.steps).queued == q.accepted + q.ring.Contents() <==> AllKept(q.steps)
    ensures Up(ws.steps) && ws.state == Closed ==>
      exists at :: 0 <= at < |ws.steps| && Arms(Run(ws.steps[..at]), ws.steps[at])
        && ws.reconnect == ws.steps[at].now % TWO_32
  {
    BytesAreConserved(q.steps);
    assert ws.steps[..|ws.steps|] == ws.steps;
    if Up(ws.steps) && ws.state == Closed {
      var at := ClosedIsRetried(ws.steps, |ws.steps|);
    }
  }
}
