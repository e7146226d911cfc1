/**
 The host's end of the serial line: the same frame codec and ring, a newline after every frame
 written, and callbacks that merely log. Reads and writes of the serial device are the
 environment's and may fail.
 */
module Hosts {
  import opened Bits
  import opened Rings
  import opened Frames
  import opened Link
  import opened Streams
  import opened EndToEnd
  import opened Panels
  import opened Relays
  import opened Devices

  /** What one read of the serial device gives. */
  datatype ReadResult = Byte(b: byte) | NoData | Error

  /** How many writes succeed before the first that fails. */
  function Succeeding(writes: seq<bool>): (n: nat)
    ensures n <= |writes| && (n < |writes| ==> !writes[n])
    ensures forall i :: 0 <= i < n ==> writes[i]
  {
    if writes == [] || !writes[0] then 0 else 1 + Succeeding(writes[1..])
  }

  lemma {:induction false} SucceedingIs(writes: seq<bool>, n: nat)
    requires n < |writes| && !writes[n] && forall i :: 0 <= i < n ==> writes[i]
    ensures Succeeding(writes) == n
  {
    if n == 0 {
    } else {
      SucceedingIs(writes[1..], n - 1);
    }
  }

  /** What gets out of s: everything before the first write that fails. */
  function Written(s: seq<byte>, writes: seq<bool>): seq<byte> {
    if Succeeding(writes) < |s| then s[..Succeeding(writes)] else s
  }

  lemma WrittenWithNewline(line: seq<byte>, s: seq<byte>, writes: seq<bool>)
    requires |s| + 1 == |writes|
    ensures line + Written(s + [NEWLINE], writes)
      == line + Written(s, writes) + if Succeeding(writes) >= |s| && writes[|s|] then [NEWLINE] else []
    ensures Succeeding(writes) == |writes| <==> Succeeding(writes) >= |s| && writes[|s|]
  {
    var n := Succeeding(writes);
    if n < |s| {
      assert (s + [NEWLINE])[..n] == s[..n];
    } else if n == |s| {
      assert (s + [NEWLINE])[..n] == s;
    }
  }

  /** The bytes that reading takes in: all up to the first time there is none, or the read fails. */
  predicate Supplied(results: seq<ReadResult>, taken: seq<byte>, ok: bool) {
    FirstOf(results, taken) && (!ok && |taken| < |results| ==> !results[|taken|].Byte?)
  }

  /** So if no window is accepted and nothing fails, all of it is taken in. */
  lemma AllTakenIn(results: seq<ReadResult>, taken: seq<byte>)
    requires Supplied(results, taken, false) && forall i :: 0 <= i < |results| ==> results[i].Byte?
    ensures |taken| == |results| && forall i :: 0 <= i < |results| ==> results[i] == Byte(taken[i])
  {}

  predicate FirstOf(results: seq<ReadResult>, taken: seq<byte>) {
    |taken| <= |results| && forall i :: 0 <= i < |taken| ==> results[i] == Byte(taken[i])
  }

  lemma FirstOfMore(results: seq<ReadResult>, taken: seq<byte>, b: byte)
    requires FirstOf(results, taken) && |taken| < |results| && results[|taken|] == Byte(b)
    ensures FirstOf(results, taken + [b])
  {}

  /** The messages the host sends of its own accord on being handed some: a pong for each ping. */
  function Replies(ms: seq<Msg>): seq<Msg> {
    if ms == [] then []
    else
      var m := ms[|ms| - 1];
      Replies(ms[..|ms| - 1]) + if m.kind == MSG_PING then [Msg(MSG_PONG, m.p1, m.p2, m.p3)] else []
  }

  lemma {:induction false} NoPingsNoReplies(ms: seq<Msg>)
    requires forall m :: m in ms ==> m.kind != MSG_PING
    ensures Replies(ms) == []
  {
    if ms == [] {
    } else {
      NoPingsNoReplies(ms[..|ms| - 1]);
    }
  }

  /** s is a and b put together, each in its order. */
  ghost predicate Merged(s: seq<Msg>, a: seq<Msg>, b: seq<Msg>) {
    if s == [] then a == [] && b == []
    else
      var front, m := s[..|s| - 1], s[|s| - 1];
      || (a != [] && a[|a| - 1] == m && Merged(front, a[..|a| - 1], b))
      || (b != [] && b[|b| - 1] == m && Merged(front, a, b[..|b| - 1]))
  }

  lemma {:induction false} MergedWithNothing(s: seq<Msg>, a: seq<Msg>)
    requires Merged(s, a, [])
    ensures s == a
  {
    if s == [] {
    } else {
      MergedWithNothing(s[..|s| - 1], a[..|a| - 1]);
      assert s == s[..|s| - 1] + [s[|s| - 1]] && a == a[..|a| - 1] + [a[|a| - 1]];
    }
  }

  lemma MergedMore(s: seq<Msg>, a: seq<Msg>, b: seq<Msg>, m: Msg)
    requires Merged(s, a, b)
    ensures Merged(s + [m], a + [m], b) && Merged(s + [m], a, b + [m])
  {
    assert (s + [m])[..|s|] == s && (a + [m])[..|a|] == a && (b + [m])[..|b|] == b;
  }

  /** What a history sent is the commands and the replies to the messages handled. */
  ghost predicate Accounted(h: History, commands: seq<Msg>, handled: seq<Msg>) {
    Merged(SentIn(h), commands, Replies(handled))
  }

  lemma StillAccounted(c: Codec, h: History, commands: seq<Msg>, handled: seq<Msg>, m: Msg)
    requires WellFramed(c) && Accounted(h, commands, handled)
    ensures Accounted(h + [Sent(m)], commands + [m], handled)
  {
    AfterSending(c, h, m);
    MergedMore(SentIn(h), commands, Replies(handled), m);
  }

  lemma MergedReply(s: seq<Msg>, a: seq<Msg>, b: seq<Msg>, reply: seq<Msg>)
    requires Merged(s, a, b) && |reply| <= 1
    ensures Merged(s + reply, a, b + reply)
  {
    if reply == [] {
      assert s + reply == s && b + reply == b;
    } else {
      MergedMore(s, a, b, reply[0]);
      assert reply == [reply[0]];
    }
  }

  /** A turn that handles at most one message and sends its reply keeps the messages sent a merge of commands and
      replies. */
  lemma TurnAccounted(c: Codec, h: History, taken: seq<byte>, commands: seq<Msg>, handled: seq<Msg>, found: seq<Msg>)
    requires WellFramed(c) && |found| <= 1
    requires Accounted(h, commands, handled)
    ensures Accounted(h + Gots(taken) + Sents(Replies(found)), commands, handled + found)
  {
    AfterGots(h, taken);
    AfterSents(c, h + Gots(taken), Replies(found));
    RepliesMore(handled, found);
    MergedReply(SentIn(h), commands, Replies(handled), Replies(found));
  }

  lemma RepliesMore(ms: seq<Msg>, found: seq<Msg>)
    requires |found| <= 1
    ensures Replies(ms + found) == Replies(ms) + Replies(found) && |Replies(found)| <= 1
  {
    if found == [] {
      assert ms + found == ms;
    } else {
      assert (ms + found)[..|ms|] == ms && found[..0] == [];
    }
  }

  lemma WireAppend(c: Codec, ms: seq<Msg>, m: Msg)
    requires WellFramed(c)
    ensures Wire(c, ms + [m]) == Wire(c, ms) + Packet(c, m)
  {
    assert (ms + [m])[..|ms|] == ms;
  }

  lemma PacketSent(c: Codec, h: History, m: Msg, line: seq<byte>, writes: seq<bool>)
    requires WellFramed(c) && |writes| == FRAME_LENGTH + 1
    ensures var k := h + [Sent(m)];
      && Window(c, k) == c.frame(m)
      && Deliveries(c, k) == Deliveries(c, h)
      && (line == Wire(c, SentIn(h)) && Succeeding(writes) == |writes|
          ==> line + Written(Packet(c, m), writes) == Wire(c, SentIn(k)))
  {
    AfterSending(c, h, m);
    WireAppend(c, SentIn(h), m);
    assert GoodFrame(c, m);
    assert Succeeding(writes) == |writes| ==> Written(Packet(c, m), writes) == Packet(c, m);
  }

  class Host {
    const msgBuf: RingBuffer
    var line: seq<byte>             // every byte written to the serial device

    ghost const codec: Codec
    ghost var hist: History
    ghost var handled: seq<Msg>     // the messages processed
    ghost var commands: seq<Msg>    // the messages sent of its own accord
    ghost var faultless: bool       // whether every write has succeeded

    /** While no write has failed, the line has carried the packets of the messages sent. */
    ghost predicate Linked()
      reads this, msgBuf, msgBuf.buff
    {
      && msgBuf.Valid() && msgBuf.buff.Length == FRAME_LENGTH
      && Wired(codec)
      && msgBuf.Contents() == Window(codec, hist)
      && (faultless ==> line == Wire(codec, SentIn(hist)))
    }

    ghost predicate Settled()
      reads this, msgBuf, msgBuf.buff
    {
      Linked() && handled == ValuesOf(codec, Deliveries(codec, hist))
    }

    /** Between operations: the messages handled are those delivered, and those sent are the commands and replies. */
    ghost predicate Valid()
      reads this, msgBuf, msgBuf.buff
    {
      Settled() && Accounted(hist, commands, handled)
    }

    constructor ()
      ensures Valid() && fresh(msgBuf) && fresh(msgBuf.buff)
      ensures hist == [] && line == [] && commands == [] && faultless
    {
      msgBuf := new RingBuffer(FRAME_LENGTH);
      line, hist, handled, commands, faultless := [], [], [], [], true;
      codec := WireCodec();
      new;
      WireIsWired();
    }

    method Accepted() returns (ok: bool)
      requires msgBuf.Valid() && msgBuf.buff.Length == FRAME_LENGTH && Wired(codec)
      ensures ok <==> codec.accepts(msgBuf.Contents())
    {
      var status := Validate(msgBuf);
      WindowVerdict(codec, msgBuf.Contents());
      ok := status == Ok;
    }

    /** Writes an accepted window byte by byte, giving up at the first write that fails, and then a newline, whose
        fate is ignored. */
    method Write(writes: seq<bool>) returns (ok: bool)
      requires msgBuf.Valid() && msgBuf.buff.Length == FRAME_LENGTH && Wired(codec)
      requires |writes| == FRAME_LENGTH + 1
      modifies `line
      ensures ok <==> codec.accepts(msgBuf.Contents()) && Succeeding(writes) >= FRAME_LENGTH
      ensures line == old(line)
        + if codec.accepts(msgBuf.Contents()) then Written(msgBuf.Contents() + [NEWLINE], writes) else []
    {
      assert GoodWindow(codec, msgBuf.Contents());
      var accepted := Accepted();
      if !accepted {
        return false;
      }
      WrittenWithNewline(line, msgBuf.Contents(), writes);
      ok := WriteBytes(writes);
      if ok && writes[FRAME_LENGTH] {
        line := line + [NEWLINE];
      }
    }

    method WriteBytes(writes: seq<bool>) returns (ok: bool)
      requires msgBuf.Valid() && |msgBuf.Contents()| < |writes|
      modifies `line
      ensures ok <==> Succeeding(writes) >= |msgBuf.Contents()|
      ensures line == old(line) + Written(msgBuf.Contents(), writes)
    {
      ghost var s := msgBuf.Contents();
      for i := 0 to msgBuf.size
        invariant i <= Succeeding(writes)
        invariant line == old(line) + s[..i]
      {
        var val := msgBuf.At(i);
        if !writes[i] {
          SucceedingIs(writes, i);
          return false;
        }
        line := line + [val];
      }
      assert s[..|s|] == s;
      return true;
    }

    method Load(kind: byte, p1: byte, p2: byte, p3: byte)
      requires msgBuf.Valid() && msgBuf.buff.Length == FRAME_LENGTH && Wired(codec)
      modifies msgBuf, msgBuf.buff
      ensures msgBuf.Valid() && msgBuf.buff == old(msgBuf.buff)
      ensures msgBuf.Contents() == codec.frame(Msg(kind, p1, p2, p3)) && codec.accepts(msgBuf.Contents())
      ensures |msgBuf.Contents()| == FRAME_LENGTH
    {
      SetBytes(msgBuf, kind, p1, p2, p3);
      assert BuildsFrame(codec, Msg(kind, p1, p2, p3));
      assert GoodFrame(codec, Msg(kind, p1, p2, p3));
    }

    /** The frame takes the place of whatever was in the ring; it goes out whole unless a write fails. */
    method DispatchMessage(kind: byte, p1: byte, p2: byte, p3: byte, writes: seq<bool>) returns (ok: bool)
      requires Linked() && |writes| == FRAME_LENGTH + 1
      modifies msgBuf, msgBuf.buff, `line, `hist, `faultless
      ensures Linked() && msgBuf.buff == old(msgBuf.buff)
      ensures ok <==> Succeeding(writes) >= FRAME_LENGTH
      ensures line == old(line) + Written(Packet(codec, Msg(kind, p1, p2, p3)), writes)
      ensures hist == old(hist) + [Sent(Msg(kind, p1, p2, p3))]
      ensures Deliveries(codec, hist) == Deliveries(codec, old(hist))
      ensures faultless == (old(faultless) && Succeeding(writes) == |writes|)
    {
      var m := Msg(kind, p1, p2, p3);
      ghost var after := hist + [Sent(m)];
      ok := Transmit(m, after, writes);
      faultless := faultless && Succeeding(writes) == |writes|;
      hist := after;
    }

    /** A message the host sends of its own accord. */
    method Command(m: Msg, writes: seq<bool>) returns (ok: bool)
      requires Valid() && |writes| == FRAME_LENGTH + 1
      modifies msgBuf, msgBuf.buff, `line, `hist, `faultless, `commands
      ensures Valid() && msgBuf.buff == old(msgBuf.buff)
      ensures ok <==> Succeeding(writes) >= FRAME_LENGTH
      ensures line == old(line) + Written(Packet(codec, m), writes)
      ensures commands == old(commands) + [m] && hist == old(hist) + [Sent(m)]
      ensures faultless == (old(faultless) && Succeeding(writes) == |writes|)
    {
      ok := DispatchMessage(m.kind, m.p1, m.p2, m.p3, writes);
      StillAccounted(codec, old(hist), commands, handled, m);
      commands := commands + [m];
    }

    method Transmit(m: Msg, ghost after: History, writes: seq<bool>) returns (ok: bool)
      requires msgBuf.Valid() && msgBuf.buff.Length == FRAME_LENGTH && Wired(codec)
      requires |writes| == FRAME_LENGTH + 1 && after == hist + [Sent(m)]
      modifies msgBuf, msgBuf.buff, `line
      ensures msgBuf.Valid() && msgBuf.buff == old(msgBuf.buff)
      ensures msgBuf.Contents() == Window(codec, after) && Deliveries(codec, after) == Deliveries(codec, hist)
      ensures (old(line) == Wire(codec, SentIn(hist)) && Succeeding(writes) == |writes|
               ==> line == Wire(codec, SentIn(after)))
      ensures ok <==> Succeeding(writes) >= FRAME_LENGTH
      ensures line == old(line) + Written(Packet(codec, m), writes)
    {
      Load(m.kind, m.p1, m.p2, m.p3);
      ok := Write(writes);
      PacketSent(codec, hist, m, old(line), writes);
    }

    /** Takes bytes in one at a time until the window is accepted, no data is left, or a read fails. */
    method Read(results: seq<ReadResult>) returns (ok: bool, ghost taken: seq<byte>)
      requires Linked()
      modifies msgBuf, msgBuf.buff, `hist
      ensures Linked() && msgBuf.buff == old(msgBuf.buff)
      ensures hist == old(hist) + Gots(taken)
      ensures Supplied(results, taken, ok)
      ensures Scan(codec, old(hist), taken, if ok then [msgBuf.Contents()] else [])
      ensures ok ==> codec.accepts(msgBuf.Contents())
    {
      ok, taken := false, [];
      GotsNone(hist);
      for i := 0 to |results|
        invariant Linked() && msgBuf.buff == old(msgBuf.buff)
        invariant hist == old(hist) + Gots(taken)
        invariant !ok && Scan(codec, old(hist), taken, [])
        invariant |taken| == i && FirstOf(results, taken)
      {
        if results[i] == NoData || results[i] == Error {
          return;
        }
        ok := TakeByte(results[i].b);
        GotsAppend(old(hist), taken, results[i].b);
        TakenMore(taken, results[i].b);
        FirstOfMore(results, taken, results[i].b);
        taken := taken + [results[i].b];
        if ok {
          return;
        }
      }
    }

    /** One byte into the window, and the verdict on the window. */
    method Shift(val: byte) returns (accepted: bool)
      requires msgBuf.Valid() && msgBuf.buff.Length == FRAME_LENGTH && Wired(codec)
      modifies msgBuf, msgBuf.buff
      ensures msgBuf.Valid() && msgBuf.buff == old(msgBuf.buff)
      ensures msgBuf.Contents() == Keep(old(msgBuf.Contents()) + [val], FRAME_LENGTH)
      ensures accepted <==> codec.accepts(msgBuf.Contents())
    {
      msgBuf.PushBack(val);
      accepted := Accepted();
    }

    method TakeByte(val: byte) returns (accepted: bool)
      requires Linked()
      modifies msgBuf, msgBuf.buff, `hist
      ensures Linked() && msgBuf.buff == old(msgBuf.buff)
      ensures hist == old(hist) + [Got(val)]
      ensures accepted <==> codec.accepts(msgBuf.Contents())
      ensures Deliveries(codec, hist) == Deliveries(codec, old(hist)) + if accepted then [msgBuf.Contents()] else []
    {
      accepted := Shift(val);
      AfterByte(codec, hist, val);
      hist := hist + [Got(val)];
    }

    method GetMessage() returns (got: bool, kind: byte, p1: byte, p2: byte, p3: byte)
      requires msgBuf.Valid() && msgBuf.buff.Length == FRAME_LENGTH && Wired(codec)
      ensures got <==> codec.accepts(msgBuf.Contents())
      ensures got ==> Msg(kind, p1, p2, p3) == codec.value(msgBuf.Contents())
    {
      got, kind, p1, p2, p3 := GetBytes(msgBuf);
      WindowVerdict(codec, msgBuf.Contents());
    }

    /** Takes in at most one message and answers it if it is a ping; every other kind is only logged. */
    method Poll(results: seq<ReadResult>, writes: seq<bool>) returns (ghost taken: seq<byte>)
      requires Valid() && |writes| == FRAME_LENGTH + 1
      modifies msgBuf, msgBuf.buff, `line, `hist, `faultless, `handled
      ensures Valid() && msgBuf.buff == old(msgBuf.buff)
      ensures old(handled) <= handled && |handled| <= |old(handled)| + 1
      ensures Supplied(results, taken, |handled| > |old(handled)|)
      ensures hist == old(hist) + Gots(taken) + Sents(Replies(handled[|old(handled)|..]))
    {
      ghost var h, before, found := hist, handled, [];
      taken, found := TakeTurn(results, writes);
      TurnAccounted(codec, h, taken, commands, before, found);
      assert handled[|before|..] == found;
    }

    method TakeTurn(results: seq<ReadResult>, writes: seq<bool>)
        returns (ghost taken: seq<byte>, ghost found: seq<Msg>)
      requires Settled() && |writes| == FRAME_LENGTH + 1
      modifies msgBuf, msgBuf.buff, `line, `hist, `faultless, `handled
      ensures Settled() && msgBuf.buff == old(msgBuf.buff)
      ensures handled == old(handled) + found && |found| <= 1
      ensures Supplied(results, taken, found != [])
      ensures hist == old(hist) + Gots(taken) + Sents(Replies(found))
    {
      var ok;
      ok, taken := Read(results);
      ScanReads(codec, old(hist), taken, if ok then [msgBuf.Contents()] else []);
      SentsShort(hist, []);
      found := if ok then [codec.value(msgBuf.Contents())] else [];
      if ok {
        TakeMessage(writes);
      } else {
        assert handled + [] == handled;
      }
    }

    /** The message in an accepted window is handled, and answered if it is a ping. */
    method TakeMessage(writes: seq<bool>)
      requires Linked() && codec.accepts(msgBuf.Contents()) && |writes| == FRAME_LENGTH + 1
      modifies msgBuf, msgBuf.buff, `line, `hist, `faultless, `handled
      ensures Linked() && msgBuf.buff == old(msgBuf.buff)
      ensures var m := old(codec.value(msgBuf.Contents()));
        handled == old(handled) + [m] && hist == old(hist) + Sents(Replies([m]))
      ensures Deliveries(codec, hist) == Deliveries(codec, old(hist))
    {
      var got, kind, p1, p2, p3 := GetMessage();
      handled := handled + [Msg(kind, p1, p2, p3)];
      ProcessMessage(kind, p1, p2, p3, writes);
    }

    method ProcessMessage(kind: byte, p1: byte, p2: byte, p3: byte, writes: seq<bool>)
      requires Linked() && |writes| == FRAME_LENGTH + 1
      modifies msgBuf, msgBuf.buff, `line, `hist, `faultless
      ensures Linked() && msgBuf.buff == old(msgBuf.buff)
      ensures hist == old(hist) + Sents(Replies([Msg(kind, p1, p2, p3)]))
      ensures hist == old(hist) + if kind == 0x01 then [Sent(Msg(0x02, p1, p2, p3))] else []
      ensures Deliveries(codec, hist) == Deliveries(codec, old(hist))
    {
      OneReply([], Msg(kind, p1, p2, p3));
      SentsShort(hist, Replies([Msg(kind, p1, p2, p3)]));
      if kind == MSG_PING {
        var sent := DispatchMessage(MSG_PONG, p1, p2, p3, writes);
      }
    }
  }

  lemma OneReply(ms: seq<Msg>, m: Msg)
    ensures (ms + [m])[|ms|..] == [m]
    ensures Replies([m]) == if m.kind == MSG_PING then [Msg(MSG_PONG, m.p1, m.p2, m.p3)] else []
  {
    assert [m][..0] == [];
  }

  /** Two codecs that build the wire's frames write the same line. */
  lemma {:induction false} SameWire(a: Codec, b: Codec, ms: seq<Msg>)
    requires Wired(a) && Wired(b)
    ensures Wire(a, ms) == Wire(b, ms)
  {
    if ms == [] {
    } else {
      SameWire(a, b, ms[..|ms| - 1]);
      assert BuildsFrame(a, ms[|ms| - 1]) && BuildsFrame(b, ms[|ms| - 1]);
    }
  }

  /** The whole link, at any load: of what a host has sent without a write failing, behind noise with no opening
      bracket in it, a device that has lost nothing handles exactly the messages it did not cut in two by sending, and
      all of them exactly if it sent nothing inside an incoming frame. */
  lemma HostDrivesDevice(host: Host, d: Device, noise: seq<byte>)
    requires host.Valid() && host.faultless
    requires d.Valid() && !d.overrun && d.rx.Contents() == []
    requires d.arrived == noise + host.line && BEGIN !in noise
    ensures Messages(d.ticks) == Surviving(d.hist, |noise|, SentIn(host.hist))
    ensures var told := Surviving(d.hist, |noise|, SentIn(host.hist));
      && (forall n :: 1 <= n <= 8 ==> (Driven(d.porta, n) <==> LastOrder(told, n)))
      && ReadOutputs(d.porta) == RegisterAfter(told) && d.held == Pulsed(told)
    ensures Messages(d.ticks) == SentIn(host.hist) <==> SendsBetweenFrames(d.hist, |noise|)
  {
    SameWire(host.codec, d.codec, SentIn(host.hist));
    CommandsAreObeyed(d, noise, SentIn(host.hist));
  }
}
