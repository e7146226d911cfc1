/**
 The device's main loop on a busy line: packets from the host pile up in the receive ring
 between polls, and each poll takes at most one message out of it.
 */
module MainLoop {
  import opened Options
  import opened Bits
  import opened Frames
  import opened Link
  import opened Streams
  import opened EndToEnd
  import opened Panels
  import opened Devices

  /** All the messages of a run, batch after batch. */
  function All(batches: seq<seq<Msg>>): seq<Msg> {
    if batches == [] then [] else All(batches[..|batches| - 1]) + batches[|batches| - 1]
  }

  /** Messages still unhandled after as many polls as there are batches, one poll following each batch. */
  function Left(batches: seq<seq<Msg>>): nat
    decreases |batches|, 1
  {
    if batches == [] then 0 else if Waiting(batches) == 0 then 0 else Waiting(batches) - 1
  }

  /** Messages waiting as the last of those polls begins. */
  function Waiting(batches: seq<seq<Msg>>): nat
    requires batches != []
    decreases |batches|, 0
  {
    Left(batches[..|batches| - 1]) + |batches[|batches| - 1]|
  }

  /** At no poll are more than eight messages waiting. */
  predicate NeverOverEight(batches: seq<seq<Msg>>) {
    batches == [] || (NeverOverEight(batches[..|batches| - 1]) && Waiting(batches) <= 8)
  }

  lemma {:induction false} LeftOfAll(batches: seq<seq<Msg>>)
    ensures Left(batches) <= |All(batches)|
  {
    if batches == [] {
    } else {
      LeftOfAll(batches[..|batches| - 1]);
    }
  }

  /** Messages handled by then. */
  function Done(batches: seq<seq<Msg>>): (k: nat)
    ensures k <= |All(batches)|
  {
    LeftOfAll(batches);
    |All(batches)| - Left(batches)
  }

  lemma NextBatch(batches: seq<seq<Msg>>, i: nat)
    requires i < |batches|
    ensures var before, after := batches[..i], batches[..i + 1];
      && All(after) == All(before) + batches[i]
      && Done(after) == (if Done(before) < |All(after)| then Done(before) + 1 else Done(before))
      && (NeverOverEight(after) <==> NeverOverEight(before) && |All(before)| - Done(before) + |batches[i]| <= 8)
  {
    assert batches[..i + 1][..i] == batches[..i];
    LeftOfAll(batches[..i]);
    var after := batches[..i + 1];
    assert Waiting(after) == Left(batches[..i]) + |batches[i]|;
    assert Left(after) == if Waiting(after) == 0 then 0 else Waiting(after) - 1;
  }

  lemma {:induction false} WireConcat(c: Codec, a: seq<Msg>, b: seq<Msg>)
    requires WellFramed(c)
    ensures Wire(c, a + b) == Wire(c, a) + Wire(c, b)
    decreases |b|
  {
    if b == [] {
      assert a + b == a;
    } else {
      var front, m := b[..|b| - 1], b[|b| - 1];
      WireConcat(c, a, front);
      assert (a + b)[..|a + b| - 1] == a + front;
      assert Wire(c, a) + Wire(c, front) + Packet(c, m) == Wire(c, a) + (Wire(c, front) + Packet(c, m));
    }
  }

  /** On a clean line, what has been delivered can be told from the bytes taken in: k packets and j bytes more. */
  lemma DeliveredSoFar(c: Codec, h: History, ms: seq<Msg>, k: nat, j: nat)
    requires WellFramed(c)
    requires Received(h) <= Wire(c, ms) && SendsBetweenFrames(h, 0)
    requires j < 15 && |Received(h)| == 15 * k + j
    ensures var done := if j == 14 then k + 1 else k;
      done <= |ms| && Deliveries(c, h) == FramesOf(c, ms[..done])
  {
    EndedAt(|ms|, k, j);
    DoneSoFar(c, h, ms, if j == 14 then k + 1 else k);
  }

  lemma EndedAt(n: nat, k: nat, j: nat)
    requires j < 15 && 15 * k + j <= 15 * n
    ensures Ended(PacketHeads(0, n), 15 * k + j, if j == 14 then k + 1 else k)
  {}

  lemma DoneSoFar(c: Codec, h: History, ms: seq<Msg>, done: nat)
    requires WellFramed(c)
    requires Received(h) <= Wire(c, ms) && SendsBetweenFrames(h, 0)
    requires Ended(PacketHeads(0, |ms|), |Received(h)|, done)
    ensures Deliveries(c, h) == FramesOf(c, ms[..done])
  {
    assert [] + Wire(c, ms) == Wire(c, ms);
    SurvivorsSoFar(c, h, [], ms, done);
    QuietStart(c, h, Wire(c, ms), 0);
    PrefixSurvives(h, 0, ms, done);
    assert [] + FramesOf(c, ms[..done]) == FramesOf(c, ms[..done]);
  }

  lemma {:induction false} SendsAfterGots(h: History, s: seq<byte>)
    requires SendsBetweenFrames(h, 0)
    ensures SendsBetweenFrames(h + Gots(s), 0)
    decreases |s|
  {
    if s == [] {
      assert h + Gots(s) == h;
    } else {
      var t := s[..|s| - 1];
      SendsAfterGots(h, t);
      assert (h + Gots(s))[..|h| + |s| - 1] == h + Gots(t);
    }
  }

  lemma {:induction false} SendsAfterSents(h: History, ms: seq<Msg>)
    requires SendsBetweenFrames(h, 0) && BetweenFrames(|Received(h)|, 0)
    ensures SendsBetweenFrames(h + Sents(ms), 0) && Received(h + Sents(ms)) == Received(h)
    decreases |ms|
  {
    if ms == [] {
      assert h + Sents(ms) == h;
    } else {
      var front := ms[..|ms| - 1];
      SendsAfterSents(h, front);
      assert (h + Sents(ms))[..|h| + |ms| - 1] == h + Sents(front);
    }
  }

  /** How a poll moves a run that stands at the end of a packet or of a frame: if any message is waiting it takes
      exactly the bytes up to the end of that message's frame; otherwise it empties the ring. */
  lemma PollTakesOne(c: Codec, h: History, taken: seq<byte>, left: nat, ms: seq<Msg>, k: nat, found: bool)
    requires WellFramed(c) && SendsBetweenFrames(h, 0)
    requires Received(h) + taken <= Wire(c, ms) && |Received(h)| + |taken| + left == 15 * |ms|
    requires k <= |ms| && (|Received(h)| == 15 * k || |Received(h)| == 15 * k - 1)
    requires Taken(c, h, taken, found) && (!found ==> left == 0)
    ensures found <==> k < |ms|
    ensures |Received(h)| + |taken| == if found then 15 * (k + 1) - 1 else 15 * k
  {
    if |Received(h)| == 15 * k { CountAt(c, h, ms, k, 0); } else { CountAt(c, h, ms, k - 1, 14); }
    var q, j := (|Received(h)| + |taken|) / 15, (|Received(h)| + |taken|) % 15;
    CountAfter(c, h, taken, ms, q, j);
    if found && j < 14 {
      ShorterPrefix(Received(h), taken, Wire(c, ms));
      if j == 0 {
        CountAfter(c, h, taken[..|taken| - 1], ms, q - 1, 14);
      } else {
        CountAfter(c, h, taken[..|taken| - 1], ms, q, j - 1);
      }
    }
  }

  lemma ShorterPrefix(a: seq<byte>, b: seq<byte>, whole: seq<byte>)
    requires b != [] && a + b <= whole
    ensures a + b[..|b| - 1] <= whole
  {}

  lemma CountAfter(c: Codec, h: History, taken: seq<byte>, ms: seq<Msg>, q: nat, j: nat)
    requires WellFramed(c) && SendsBetweenFrames(h, 0)
    requires Received(h) + taken <= Wire(c, ms)
    requires j < 15 && |Received(h)| + |taken| == 15 * q + j
    ensures |Deliveries(c, h + Gots(taken))| == (if j == 14 then q + 1 else q) <= |ms|
  {
    AfterGots(h, taken);
    SendsAfterGots(h, taken);
    CountAt(c, h + Gots(taken), ms, q, j);
  }

  lemma CountAt(c: Codec, h: History, ms: seq<Msg>, q: nat, j: nat)
    requires WellFramed(c)
    requires Received(h) <= Wire(c, ms) && SendsBetweenFrames(h, 0)
    requires j < 15 && |Received(h)| == 15 * q + j
    ensures |Deliveries(c, h)| == (if j == 14 then q + 1 else q) <= |ms|
  {
    DeliveredSoFar(c, h, ms, q, j);
  }

  /** A run that has been sent exactly `all` and has handled the first k: it stands at the end of the k-th message's
      frame or packet, and has sent nothing inside a frame. */
  predicate Pace(c: Codec, h: History, ts: seq<Tick>, all: seq<Msg>, k: nat) {
    && k <= |all| && Messages(ts) == all[..k]
    && SendsBetweenFrames(h, 0)
    && (|Received(h)| == 15 * k || |Received(h)| == 15 * k - 1)
  }

  /** One poll of such a run handles the next message, if there is one, and leaves the pace. */
  lemma PollKeepsPace(c: Codec, h: History, taken: seq<byte>, left: nat, replies: seq<Msg>,
                      ts: seq<Tick>, t: Tick, all: seq<Msg>, k: nat)
    requires WellFramed(c)
    requires Pace(c, h, ts, all, k)
    requires Received(h) + taken <= Wire(c, all) && |Received(h)| + |taken| + left == 15 * |all|
    requires Taken(c, h, taken, t.msg.Some?) && (t.msg == None ==> left == 0)
    requires Messages(ts + [t]) == ValuesOf(c, Deliveries(c, h + Gots(taken) + Sents(replies)))
    ensures Pace(c, h + Gots(taken) + Sents(replies), ts + [t], all, if k < |all| then k + 1 else k)
  {
    PollTakesOne(c, h, taken, left, all, k, t.msg.Some?);
    PollPlace(c, h, taken, replies, all, if k < |all| then k + 1 else k);
  }

  lemma PollPlace(c: Codec, h: History, taken: seq<byte>, replies: seq<Msg>, all: seq<Msg>, k: nat)
    requires WellFramed(c) && SendsBetweenFrames(h, 0)
    requires Received(h) + taken <= Wire(c, all) && k <= |all|
    requires |Received(h)| + |taken| == 15 * k || |Received(h)| + |taken| == 15 * k - 1
    ensures var g := h + Gots(taken) + Sents(replies);
      && SendsBetweenFrames(g, 0) && |Received(g)| == |Received(h)| + |taken|
      && ValuesOf(c, Deliveries(c, g)) == all[..k]
  {
    AfterGots(h, taken);
    SendsAfterGots(h, taken);
    EndOfFrame(k);
    SendsAfterSents(h + Gots(taken), replies);
    AfterSents(c, h + Gots(taken), replies);
    ReadSoFar(c, h + Gots(taken), all, k);
  }

  lemma ReadSoFar(c: Codec, h: History, all: seq<Msg>, k: nat)
    requires WellFramed(c) && SendsBetweenFrames(h, 0)
    requires Received(h) <= Wire(c, all) && k <= |all|
    requires |Received(h)| == 15 * k || |Received(h)| == 15 * k - 1
    ensures ValuesOf(c, Deliveries(c, h)) == all[..k]
  {
    if |Received(h)| == 15 * k { DeliveredSoFar(c, h, all, k, 0); } else { DeliveredSoFar(c, h, all, k - 1, 14); }
    FramesRead(c, all[..k]);
  }

  lemma EndOfFrame(k: nat)
    ensures BetweenFrames(15 * k, 0) && (k > 0 ==> BetweenFrames(15 * k - 1, 0))
  {}

  /** A device that keeps such a pace and has lost nothing. */
  ghost predicate KeepsUp(d: Device, all: seq<Msg>, k: nat)
    reads d, d.msgBuf, d.msgBuf.buff, d.rx, d.rx.buff
  {
    d.Valid() && !d.overrun && d.arrived == Wire(d.codec, all) && Pace(d.codec, d.hist, d.ticks, all, k)
  }

  /** What is waiting in the receive ring: the messages not yet handled, behind at most one left-over newline. */
  lemma Backlog(d: Device, all: seq<Msg>, k: nat)
    requires KeepsUp(d, all, k)
    ensures 15 * (|all| - k) <= |d.rx.Contents()| <= 15 * (|all| - k) + 1
    ensures Received(d.hist) + d.rx.Contents() == Wire(d.codec, all)
  {}

  /** A batch of packets comes in between two polls. More than eight messages waiting is more than the ring holds. */
  method Fill(d: Device, line: seq<byte>, ghost all: seq<Msg>, ghost more: seq<Msg>, ghost k: nat)
    requires d.Valid() && (!d.overrun ==> KeepsUp(d, all, k))
    requires line == Wire(d.codec, more)
    modifies d.rx, d.rx.buff, d`arrived, d`overrun
    ensures d.Valid() && d.rx.buff == old(d.rx.buff)
    ensures d.overrun <==> old(d.overrun) || |all| - k + |more| > 8
    ensures !d.overrun ==> KeepsUp(d, all + more, k)
  {
    if !d.overrun {
      Backlog(d, all, k);
    }
    WireConcat(d.codec, all, more);
    d.Arrivals(line);
    assert k <= |all| ==> (all + more)[..k] == all[..k];
  }

  /** A poll takes the next message out of the ring if there is one. */
  method Turn(d: Device, early: Pins, late: Pins, ghost all: seq<Msg>, ghost k: nat)
    requires d.Valid() && (!d.overrun ==> KeepsUp(d, all, k))
    modifies d, d.msgBuf, d.msgBuf.buff, d.rx, d.rx.buff
    ensures d.Valid() && d.msgBuf.buff == old(d.msgBuf.buff) && d.rx.buff == old(d.rx.buff)
    ensures d.overrun == old(d.overrun)
    ensures !d.overrun ==> KeepsUp(d, all, if k < |all| then k + 1 else k)
  {
    ghost var h, ts, waiting, p := d.hist, d.ticks, d.rx.Contents(), d.PanelNow();
    var t, taken, looks := d.Poll([], early, late);
    if !d.overrun {
      Regrouped(Received(h), taken, d.rx.Contents(), waiting);
      PollKeepsPace(d.codec, h, taken, |d.rx.Contents()|, Panels.Poll(p, t).sent, ts, t, all, k);
    }
  }

  lemma Regrouped(a: seq<byte>, b: seq<byte>, c: seq<byte>, bc: seq<byte>)
    requires bc == b + c
    ensures a + b <= a + bc && |a| + |b| + |c| == |a + bc|
  {}

  lemma PowerOn(d: Device)
    requires d.Valid() && d.hist == [] && d.arrived == [] && !d.overrun && d.ticks == []
    ensures KeepsUp(d, [], 0)
  {}

  /** The main loop from power-on, one batch of packets arriving before each poll. Bytes are lost if and only if more
      than eight messages are ever waiting; if none are, every poll with a message waiting handles the next one. */
  method RunLoop(d: Device, lines: seq<seq<byte>>, early: seq<Pins>, late: seq<Pins>, ghost batches: seq<seq<Msg>>)
    requires d.Valid() && d.hist == [] && d.arrived == [] && !d.overrun && d.ticks == []
    requires |early| == |late| == |lines| == |batches|
    requires forall i :: 0 <= i < |batches| ==> lines[i] == Wire(d.codec, batches[i])
    modifies d, d.msgBuf, d.msgBuf.buff, d.rx, d.rx.buff
    ensures d.Valid()
    ensures d.overrun <==> !NeverOverEight(batches)
    ensures !d.overrun ==> Messages(d.ticks) == All(batches)[..Done(batches)]
  {
    PowerOn(d);
    for i := 0 to |lines|
      invariant d.Valid() && d.msgBuf.buff == old(d.msgBuf.buff) && d.rx.buff == old(d.rx.buff)
      invariant d.overrun <==> !NeverOverEight(batches[..i])
      invariant !d.overrun ==> KeepsUp(d, All(batches[..i]), Done(batches[..i]))
    {
      ghost var all, more := All(batches[..i]), batches[i];
      ghost var k := Done(batches[..i]);
      NextBatch(batches, i);
      Fill(d, lines[i], all, more, k);
      Turn(d, early[i], late[i], all + more, k);
    }
    assert batches[..|lines|] == batches;
  }
}
