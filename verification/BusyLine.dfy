/**
 The device on a line that never waits for it: bytes come in one at a time, between polls and in
 the middle of them, and packets are cut anywhere. How far the device may fall behind before
 the receive ring overflows can be told from the arrivals and the polls alone.
 */
module BusyLine {
  import opened Bits
  import opened Frames
  import opened Link
  import opened Streams
  import opened EndToEnd
  import opened Panels
  import opened Devices

  /** A byte comes in, with a parity error or without; or the main loop polls, and the interrupt stores meanwhile[k]
      before the poll's k-th look at the ring, and after the poll what it looked too few times to see. */
  datatype Happening =
    | Arrive(b: byte, parityError: bool)
    | Turn(meanwhile: seq<seq<byte>>, early: Pins, late: Pins)

  function StoredBy(e: Happening): seq<byte> {
    match e
    case Arrive(b, parityError) => if parityError then [] else [b]
    case Turn(meanwhile, _, _) => Join(meanwhile)
  }

  /** Every byte stored in a run. */
  function Line(es: seq<Happening>): seq<byte> {
    if es == [] then [] else Line(es[..|es| - 1]) + StoredBy(es[|es| - 1])
  }

  /** Frame k of the host's stream, and with it those before it, is complete in its first a bytes. */
  predicate FrameIn(k: nat, a: nat) {
    15 * k + FRAME_LENGTH <= a
  }

  /** How many frames the polls of a run have surely taken in: one each, as long as one was there to take. */
  function ReadBy(es: seq<Happening>): nat {
    if es == [] then 0
    else
      var front := es[..|es| - 1];
      ReadBy(front) + if es[|es| - 1].Turn? && FrameIn(ReadBy(front), |Line(front)|) then 1 else 0
  }

  /** The first a bytes of the host's stream reach no further than n packets beyond the first r. */
  predicate Within(a: nat, r: nat, n: nat) {
    a <= 15 * (r + n)
  }

  /** No byte was ever stored with more than eight packets unread, the one in progress counted. What arrives during a
      poll counts as unread together with the frame the poll takes in. */
  predicate AtMostEightUnread(es: seq<Happening>) {
    es == [] || (AtMostEightUnread(es[..|es| - 1]) && Within(|Line(es)|, ReadBy(es[..|es| - 1]), 8))
  }

  // ---------------------------------------------------------------------------
  // Pace
  // ---------------------------------------------------------------------------

  /** Bytes stored since the last poll, or since the start. */
  function Lately(es: seq<Happening>): nat {
    if es == [] || es[|es| - 1].Turn? then 0 else Lately(es[..|es| - 1]) + |StoredBy(es[|es| - 1])|
  }

  /** From the end of one poll to the end of the next no more than a packet's worth of bytes is stored. */
  predicate Paced(es: seq<Happening>) {
    es == [] || (Paced(es[..|es| - 1]) && Lately(es[..|es| - 1]) + |StoredBy(es[|es| - 1])| <= 15)
  }

  lemma OneMore(busy: seq<Happening>, f: seq<Happening>, e: Happening)
    ensures Line(busy + (f + [e])) == Line(busy + f) + StoredBy(e)
    ensures (ReadBy(busy + (f + [e]))
      == ReadBy(busy + f) + if e.Turn? && FrameIn(ReadBy(busy + f), |Line(busy + f)|) then 1 else 0)
    ensures (AtMostEightUnread(busy + (f + [e]))
      <==> AtMostEightUnread(busy + f) && Within(|Line(busy + (f + [e]))|, ReadBy(busy + f), 8))
  {
    assert (busy + (f + [e]))[..|busy + f|] == busy + f;
  }

  /** Without the last of them, a bytes reach no further than seven packets beyond the first r. */
  predicate SevenBehind(a: nat, lately: nat, r: nat) {
    lately <= a && Within(a - lately, r, 7)
  }

  lemma OnePacketMore(a: nat, lately: nat, n: nat, r: nat)
    requires SevenBehind(a, lately, r) && lately + n <= 15
    ensures Within(a + n, r, 8)
    ensures SevenBehind(a + n, lately + n, r)
    ensures SevenBehind(a + n, 0, if FrameIn(r, a) then r + 1 else r)
  {}

  /** With at most seven packets unread, and from there on at most one packet's worth of bytes per poll, wherever in
      the packets they fall, there are never more than eight unread. */
  lemma {:induction false} PaceIsEnough(busy: seq<Happening>, es: seq<Happening>)
    requires AtMostEightUnread(busy) && SevenBehind(|Line(busy)|, 0, ReadBy(busy)) && Paced(es)
    ensures AtMostEightUnread(busy + es)
    ensures SevenBehind(|Line(busy + es)|, Lately(es), ReadBy(busy + es))
    decreases |es|
  {
    if es == [] {
      assert busy + es == busy;
    } else {
      var f, e := es[..|es| - 1], es[|es| - 1];
      LastSplit(es);
      PaceIsEnough(busy, f);
      PaceStep(busy, f, e);
    }
  }

  lemma PaceStep(busy: seq<Happening>, f: seq<Happening>, e: Happening)
    requires AtMostEightUnread(busy + f) && Lately(f) + |StoredBy(e)| <= 15
    requires SevenBehind(|Line(busy + f)|, Lately(f), ReadBy(busy + f))
    ensures AtMostEightUnread(busy + (f + [e]))
    ensures SevenBehind(|Line(busy + (f + [e]))|, Lately(f + [e]), ReadBy(busy + (f + [e])))
  {
    var a, r, n := |Line(busy + f)|, ReadBy(busy + f), |StoredBy(e)|;
    OnePacketMore(a, Lately(f), n, r);
    OneMore(busy, f, e);
    LatelyMore(f, e);
    assert |Line(busy + (f + [e]))| == a + n;
  }

  lemma LatelyMore(f: seq<Happening>, e: Happening)
    ensures Lately(f + [e]) == if e.Turn? then 0 else Lately(f) + |StoredBy(e)|
  {
    assert (f + [e])[..|f|] == f;
  }

  // ---------------------------------------------------------------------------
  // The device
  // ---------------------------------------------------------------------------

  /** A byte that does not end a frame of the host's stream delivers nothing. */
  lemma MidFrame(c: Codec, h: History, b: byte, ms: seq<Msg>)
    requires WellFramed(c) && Received(h) + [b] <= Wire(c, ms)
    requires (|Received(h)| + 1) % 15 != FRAME_LENGTH
    ensures Deliveries(c, h + [Got(b)]) == Deliveries(c, h)
  {
    var n := |Received(h)|;
    if n >= 13 {
      NotAtHead(n - 13);
      BracketsInWire(c, ms, n - 13);
    }
    OtherByte(c, h, b, Wire(c, ms));
  }

  lemma NotAtHead(i: nat)
    requires (i + FRAME_LENGTH) % 15 != FRAME_LENGTH
    ensures i % 15 != 0
  {}

  lemma OnlyAtFrameEnd(c: Codec, h: History, b: byte, ms: seq<Msg>)
    requires WellFramed(c) && Received(h) + [b] <= Wire(c, ms)
    requires |Deliveries(c, h + [Got(b)])| != |Deliveries(c, h)|
    ensures (|Received(h)| + 1) % 15 == FRAME_LENGTH
  {
    if (|Received(h)| + 1) % 15 != FRAME_LENGTH { MidFrame(c, h, b, ms); }
  }

  /** So a poll that finds a message stops at the end of a frame that was not read before. */
  lemma FoundAtFrameEnd(c: Codec, h: History, taken: seq<byte>, ms: seq<Msg>) returns (k: nat)
    requires WellFramed(c) && Received(h) + taken <= Wire(c, ms)
    requires Taken(c, h, taken, true)
    ensures |Received(h)| < |Received(h)| + |taken| == 15 * k + FRAME_LENGTH
  {
    var front, b := taken[..|taken| - 1], taken[|taken| - 1];
    LastSplit(taken);
    AfterGots(h, front);
    GotsAppend(h, front, b);
    Regroup(Received(h), front, [b]);
    var at := |Received(h + Gots(front))| + 1;
    OnlyAtFrameEnd(c, h + Gots(front), b, ms);
    assert at == |Received(h)| + |taken|;
    k := at / 15;
  }

  lemma Regroup(a: seq<byte>, b: seq<byte>, c: seq<byte>)
    ensures a + b + c == a + (b + c)
  {}

  lemma {:induction false} JoinSplit(ss: seq<seq<byte>>, k: nat)
    requires k <= |ss|
    ensures Join(ss[..k]) + Join(ss[k..]) == Join(ss)
    decreases |ss|
  {
    if k == |ss| {
      assert ss[..k] == ss;
    } else {
      var front, last := ss[..|ss| - 1], ss[|ss| - 1];
      JoinSplit(front, k);
      assert front[..k] == ss[..k] && front[k..] == ss[k..][..|ss| - k - 1];
      Regroup(Join(ss[..k]), Join(front[k..]), last);
    }
  }

  /** A device that has lost nothing of the bytes stored so far and has taken in at least r frames of them. */
  ghost predicate InStep(d: Device, line: seq<byte>, r: nat)
    reads d, d.msgBuf, d.msgBuf.buff, d.rx, d.rx.buff
  {
    d.Valid() && !d.overrun && d.arrived == line && 15 * r <= |Received(d.hist)| + 1
  }

  /** A poll reads a frame more if one was complete when it began; if it finds nothing it has read all there is. */
  lemma PollReads(c: Codec, h: History, taken: seq<byte>, ms: seq<Msg>, found: bool, before: nat, r: nat)
    requires WellFramed(c) && Received(h) + taken <= Wire(c, ms)
    requires Taken(c, h, taken, found) && (!found ==> before <= |Received(h)| + |taken|)
    requires 15 * r <= |Received(h)| + 1
    ensures 15 * (if FrameIn(r, before) then r + 1 else r) <= |Received(h)| + |taken| + 1
  {
    if found {
      var k := FoundAtFrameEnd(c, h, taken, ms);
      OneFrameMore(|Received(h)|, |Received(h)| + |taken|, k, r);
    }
  }

  lemma OneFrameMore(before: nat, at: nat, k: nat, r: nat)
    requires before < at == 15 * k + FRAME_LENGTH && 15 * r <= before + 1
    ensures 15 * (r + 1) <= at + 1
  {}

  lemma InStepBytes(d: Device, line: seq<byte>, r: nat)
    requires InStep(d, line, r)
    ensures line == Received(d.hist) + d.rx.Contents() && 15 * r <= |Received(d.hist)| + 1
  {}

  lemma Room(d: Device, line: seq<byte>, more: nat, r: nat)
    requires InStep(d, line, r) && Within(|line| + more, r, 8)
    ensures |d.rx.Contents()| + more <= RX_CAPACITY
  {
    InStepBytes(d, line, r);
  }

  /** With at most eight packets unread there is room for what comes. */
  method TakeIn(d: Device, more: seq<byte>, ghost line: seq<byte>, ghost r: nat)
    requires InStep(d, line, r) && Within(|line| + |more|, r, 8)
    modifies d.rx, d.rx.buff, d`arrived, d`overrun
    ensures d.rx.buff == old(d.rx.buff) && InStep(d, line + more, r)
  {
    Room(d, line, |more|, r);
    d.Overhear(more);
  }

  method TakeOneIn(d: Device, b: byte, parityError: bool, ghost line: seq<byte>, ghost r: nat)
    requires InStep(d, line, r) && Within(|line| + (if parityError then 0 else 1), r, 8)
    modifies d.rx, d.rx.buff, d`arrived, d`overrun
    ensures d.rx.buff == old(d.rx.buff) && InStep(d, if parityError then line else line + [b], r)
  {
    Room(d, line, if parityError then 0 else 1, r);
    d.Interrupted(b, parityError);
    assert line + [] == line;
  }

  method PollOnce(d: Device, meanwhile: seq<seq<byte>>, early: Pins, late: Pins,
                  ghost line: seq<byte>, ghost r: nat, ghost all: seq<Msg>) returns (looks: nat)
    requires InStep(d, line, r)
    requires line + Join(meanwhile) <= Wire(d.codec, all) && Within(|line| + |Join(meanwhile)|, r, 8)
    modifies d, d.msgBuf, d.msgBuf.buff, d.rx, d.rx.buff
    ensures d.msgBuf.buff == old(d.msgBuf.buff) && d.rx.buff == old(d.rx.buff)
    ensures looks <= |meanwhile|
    ensures InStep(d, line + Join(meanwhile[..looks]), if FrameIn(r, |line|) then r + 1 else r)
  {
    ghost var h, p := d.hist, d.PanelNow();
    Room(d, line, |Join(meanwhile)|, r);
    ghost var t, taken;
    t, taken, looks := d.Poll(meanwhile, early, late);
    JoinSplit(meanwhile, looks);
    AfterTurn(d.codec, h, taken, Panels.Poll(p, t).sent);
    Prefixes(Received(h) + taken, d.rx.Contents(), line, Join(meanwhile[..looks]), Join(meanwhile[looks..]));
    PollReads(d.codec, h, taken, all, t.msg.Some?, |line|, r);
  }

  lemma Prefixes(a: seq<byte>, b: seq<byte>, line: seq<byte>, s: seq<byte>, t: seq<byte>)
    requires a + b == line + s
    ensures a <= line + (s + t) && (b == [] ==> |line| <= |a|)
  {
    assert line + (s + t) == line + s + t;
    assert a + b + t == a + (b + t);
  }

  lemma AfterTurn(c: Codec, h: History, taken: seq<byte>, replies: seq<Msg>)
    requires WellFramed(c)
    ensures Received(h + Gots(taken) + Sents(replies)) == Received(h) + taken
  {
    AfterGots(h, taken);
    AfterSents(c, h + Gots(taken), replies);
  }

  lemma {:induction false} Earlier(es: seq<Happening>, i: nat)
    requires i <= |es|
    ensures Line(es[..i]) <= Line(es) && (AtMostEightUnread(es) ==> AtMostEightUnread(es[..i]))
    decreases |es|
  {
    if i == |es| {
      assert es[..i] == es;
    } else {
      Earlier(es[..|es| - 1], i);
      assert es[..|es| - 1][..i] == es[..i];
    }
  }

  /** The i-th happening, seen from those before it. */
  lemma Step(es: seq<Happening>, i: nat)
    requires i < |es| && AtMostEightUnread(es)
    ensures Line(es[..i + 1]) == Line(es[..i]) + StoredBy(es[i]) <= Line(es)
    ensures Within(|Line(es[..i])| + |StoredBy(es[i])|, ReadBy(es[..i]), 8)
    ensures (ReadBy(es[..i + 1])
      == if es[i].Turn? && FrameIn(ReadBy(es[..i]), |Line(es[..i])|) then ReadBy(es[..i]) + 1 else ReadBy(es[..i]))
  {
    Earlier(es, i + 1);
    assert es[..i + 1][..i] == es[..i];
  }

  lemma RestFits(line: seq<byte>, meanwhile: seq<seq<byte>>, looks: nat, r: nat)
    requires looks <= |meanwhile| && Within(|line| + |Join(meanwhile)|, r, 8)
    ensures var now, rest := line + Join(meanwhile[..looks]), Join(meanwhile[looks..]);
      && now + rest == line + Join(meanwhile)
      && Within(|now| + |rest|, r, 8) && Within(|now| + |rest|, r + 1, 8)
  {
    JoinSplit(meanwhile, looks);
    Regroup(line, Join(meanwhile[..looks]), Join(meanwhile[looks..]));
  }

  /** One poll. What it looked too few times to see comes in after it. */
  method OneTurn(d: Device, meanwhile: seq<seq<byte>>, early: Pins, late: Pins,
                 ghost line: seq<byte>, ghost r: nat, ghost all: seq<Msg>)
    requires InStep(d, line, r)
    requires line + Join(meanwhile) <= Wire(d.codec, all) && Within(|line| + |Join(meanwhile)|, r, 8)
    modifies d, d.msgBuf, d.msgBuf.buff, d.rx, d.rx.buff
    ensures d.msgBuf.buff == old(d.msgBuf.buff) && d.rx.buff == old(d.rx.buff)
    ensures InStep(d, line + Join(meanwhile), if FrameIn(r, |line|) then r + 1 else r)
  {
    ghost var read := if FrameIn(r, |line|) then r + 1 else r;
    var looks := PollOnce(d, meanwhile, early, late, line, r, all);
    ghost var now := line + Join(meanwhile[..looks]);
    var rest := Join(meanwhile[looks..]);
    RestFits(line, meanwhile, looks, r);
    TakeIn(d, rest, now, read);
  }

  method Happen(d: Device, e: Happening, ghost line: seq<byte>, ghost r: nat, ghost all: seq<Msg>)
    requires InStep(d, line, r)
    requires line + StoredBy(e) <= Wire(d.codec, all) && Within(|line| + |StoredBy(e)|, r, 8)
    modifies d, d.msgBuf, d.msgBuf.buff, d.rx, d.rx.buff
    ensures d.msgBuf.buff == old(d.msgBuf.buff) && d.rx.buff == old(d.rx.buff)
    ensures InStep(d, line + StoredBy(e), if e.Turn? && FrameIn(r, |line|) then r + 1 else r)
  {
    if e.Turn? {
      OneTurn(d, e.meanwhile, e.early, e.late, line, r, all);
    } else {
      TakeOneIn(d, e.b, e.parityError, line, r);
    }
  }

  /** Any run from power-on, byte by byte, with interrupts in the middle of polls, packets cut anywhere and sendings
      at any moment: as long as no more than eight packets are unread nothing is lost, and the messages handled are
      those of the frames taken in that no sending has cut in two. */
  method Run(d: Device, es: seq<Happening>, ghost all: seq<Msg>)
    requires d.Valid() && d.hist == [] && d.arrived == [] && !d.overrun && d.ticks == []
    requires Line(es) <= Wire(d.codec, all) && AtMostEightUnread(es)
    modifies d, d.msgBuf, d.msgBuf.buff, d.rx, d.rx.buff
    ensures d.Valid() && !d.overrun && d.arrived == Line(es)
    ensures 15 * ReadBy(es) <= |Received(d.hist)| + 1
    ensures Received(d.hist) <= Wire(d.codec, all)
    ensures Messages(d.ticks) == Surviving(d.hist, 0, FramesIn(all, |Received(d.hist)|))
  {
    for i := 0 to |es|
      invariant d.msgBuf.buff == old(d.msgBuf.buff) && d.rx.buff == old(d.rx.buff)
      invariant InStep(d, Line(es[..i]), ReadBy(es[..i]))
    {
      Step(es, i);
      Happen(d, es[i], Line(es[..i]), ReadBy(es[..i]), all);
    }
    assert es[..|es|] == es;
    HandledSoFar(d, Line(es), ReadBy(es), all);
  }

  /** And with a ninth packet in progress something can be: after the first frame is read, its newline, eight whole
      packets and eight bytes of the next overrun the ring. */
  method NinthCanOverrun(d: Device, line: seq<byte>, early: Pins, late: Pins, ghost all: seq<Msg>)
    requires d.Valid() && d.hist == [] && d.arrived == [] && !d.overrun && d.ticks == []
    requires |all| == 10 && line == Wire(d.codec, all)
    modifies d, d.msgBuf, d.msgBuf.buff, d.rx, d.rx.buff
    ensures d.Valid() && d.arrived == line[..14 + 1 + 8 * 15 + 8] && Received(d.hist) == line[..14]
    ensures d.overrun
  {
    var first, more := line[..14], line[14..143];
    assert first + more == line[..143];
    ReadFirst(d, first, early, late, all);
    Flood(d, first, more);
  }

  method ReadFirst(d: Device, first: seq<byte>, early: Pins, late: Pins, ghost all: seq<Msg>)
    requires InStep(d, [], 0) && |first| == 14 && first <= Wire(d.codec, all)
    modifies d, d.msgBuf, d.msgBuf.buff, d.rx, d.rx.buff
    ensures d.rx.buff == old(d.rx.buff) && InStep(d, first, 1)
  {
    Regroup([], [], first);
    TakeIn(d, first, [], 0);
    Regroup([], first, []);
    var looks := PollOnce(d, [], early, late, first, 0, all);
  }

  method Flood(d: Device, first: seq<byte>, more: seq<byte>)
    requires InStep(d, first, 1) && |first| == 14 && |more| == 129
    modifies d.rx, d.rx.buff, d`arrived, d`overrun
    ensures d.Valid() && d.arrived == first + more && Received(d.hist) == first && d.overrun
  {
    FirstIsRead(d, first);
    d.Overhear(more);
    if !d.overrun { StillInStep(d, first + more); }
  }

  lemma StillInStep(d: Device, line: seq<byte>)
    requires InStep(d, line, 0)
    ensures |line| <= |Received(d.hist)| + RX_CAPACITY
  {
    InStepBytes(d, line, 0);
  }

  lemma FirstIsRead(d: Device, line: seq<byte>)
    requires InStep(d, line, 1) && |line| == 14
    ensures Received(d.hist) == line && d.rx.Contents() == []
  {
    InStepBytes(d, line, 1);
  }

  /** The messages whose frames are complete in the first a bytes. */
  function FramesIn(ms: seq<Msg>, a: nat): seq<Msg> {
    if (a + 1) / 15 <= |ms| then ms[..(a + 1) / 15] else ms
  }

  lemma HandledSoFar(d: Device, line: seq<byte>, r: nat, all: seq<Msg>)
    requires InStep(d, line, r) && line <= Wire(d.codec, all)
    ensures Received(d.hist) <= Wire(d.codec, all)
    ensures Messages(d.ticks) == Surviving(d.hist, 0, FramesIn(all, |Received(d.hist)|))
  {
    InStepBytes(d, line, r);
    HandledFrames(d.codec, d.hist, all);
  }

  lemma HandledFrames(c: Codec, h: History, all: seq<Msg>)
    requires WellFramed(c) && Received(h) <= Wire(c, all)
    ensures ValuesOf(c, Deliveries(c, h)) == Surviving(h, 0, FramesIn(all, |Received(h)|))
  {
    assert [] + Wire(c, all) == Wire(c, all);
    PacketsEnded(|Received(h)|, 0, |all|);
    SurvivorsSoFar(c, h, [], all, (|Received(h)| + 1) / 15);
  }
}
