/**
 The device's program: the receive interrupt filling a 128-byte ring, the message processor
 whose one 14-byte ring holds both the incoming window and every outgoing frame, the handlers
 that work the relays, and the main loop's poll.
 */
module Devices {
  import opened Options
  import opened Bits
  import opened Rings
  import opened Frames
  import opened Link
  import opened Streams
  import opened EndToEnd
  import opened Relays
  import opened Panels

  const RX_CAPACITY := 128

  /** The state of the input pins when a handler reads them. */
  datatype Pins = Pins(c: bv8, d: bv8)

  function InputsOf(p: Pins): bv8 {
    ReadInputs(p.c, p.d)
  }

  /** Inputs 1 and 2 hang on port D, the others on port C; an input is on while its pin is low. */
  lemma InputPins(p: Pins, n: nat)
    requires 1 <= n <= 8
    ensures On(InputsOf(p), n)
      <==> (if n == 1 then p.d & 0x20 == 0 else if n == 2 then p.d & 0x80 == 0 else if n == 3 then p.c & 0x08 == 0
            else if n == 4 then p.c & 0x04 == 0 else if n == 5 then p.c & 0x10 == 0
            else if n == 6 then p.c & 0x20 == 0 else if n == 7 then p.c & 0x40 == 0 else p.c & 0x80 == 0)
  {
    InputWiring(p.c, p.d);
  }

  function Sents(ms: seq<Msg>): (h: History)
    ensures |h| == |ms| && forall i :: 0 <= i < |ms| ==> h[i] == Sent(ms[i])
  {
    seq(|ms|, i requires 0 <= i < |ms| => Sent(ms[i]))
  }

  function Flat(c: Codec, ms: seq<Msg>): seq<byte> {
    if ms == [] then [] else Flat(c, ms[..|ms| - 1]) + c.frame(ms[|ms| - 1])
  }

  lemma FlatAppend(c: Codec, ms: seq<Msg>, m: Msg)
    ensures Flat(c, ms + [m]) == Flat(c, ms) + c.frame(m)
  {
    assert (ms + [m])[..|ms|] == ms;
  }

  lemma AfterSending(c: Codec, h: History, m: Msg)
    requires WellFramed(c)
    ensures var k := h + [Sent(m)];
      && Window(c, k) == c.frame(m)
      && Deliveries(c, k) == Deliveries(c, h)
      && SentIn(k) == SentIn(h) + [m]
      && Received(k) == Received(h)
  {
    var k := h + [Sent(m)];
    assert k[..|h|] == h;
    assert GoodFrame(c, m);
  }

  lemma AfterByte(c: Codec, h: History, b: byte)
    ensures var k := h + [Got(b)];
      && Window(c, k) == Keep(Window(c, h) + [b], FRAME_LENGTH)
      && Deliveries(c, k) == Deliveries(c, h) + Delivery(c, Got(b), Window(c, k))
      && SentIn(k) == SentIn(h)
      && Received(k) == Received(h) + [b]
  {
    var k := h + [Got(b)];
    assert k[..|h|] == h;
    KeepTwice(Bytes(c, h), [b], FRAME_LENGTH);
  }

  lemma SentsShort(h: History, ms: seq<Msg>)
    ensures ms == [] ==> h + Sents(ms) == h
    ensures |ms| == 1 ==> h + Sents(ms) == h + [Sent(ms[0])]
  {}

  lemma SubscribeCases(h: History, p: Panel, register: byte, cancel: bool, inputs: bv8)
    ensures var o := Subscribe(p, register, cancel, inputs);
      && (register == REG_INPUT_1 ==>
            && o.panel == Panel(p.reg, Subscription(!cancel, if cancel then 0 else inputs), p.output)
            && h + Sents(o.sent) == h + [Sent(Report(REG_INPUT_1, inputs, cancel))])
      && (register == REG_OUTPUT_1 ==>
            && o.panel == Panel(p.reg, p.input, Subscription(!cancel, if cancel then 0 else p.reg))
            && h + Sents(o.sent) == h + [Sent(Report(REG_OUTPUT_1, p.reg, cancel))])
      && (register != REG_INPUT_1 && register != REG_OUTPUT_1 ==>
            o.panel == p && h + Sents(o.sent) == h + [Sent(Msg(MSG_SUBSCRIBE_REGISTER, REG_ERR_UNKNOWN, 0, 1))])
  {}

  lemma HandleCases(p: Panel, m: Msg, inputs: bv8)
    ensures var o := Handle(p, m, inputs);
      && (m.kind == MSG_PING ==> o == Outcome(p, [Msg(MSG_PONG, m.p1, m.p2, m.p3)]))
      && (m.kind == MSG_READ_REGISTER ==> o == Outcome(p, [ReadReply(p.reg, m.p1, inputs)]))
      && (m.kind == MSG_SUBSCRIBE_REGISTER ==> o == Subscribe(p, m.p1, m.p3 != 0, inputs) && |o.sent| == 1)
      && (m.kind != MSG_PING && m.kind != MSG_READ_REGISTER && m.kind != MSG_SUBSCRIBE_REGISTER ==>
            o == Outcome(Panel(Effect(p.reg, m), p.input, p.output), []))
  {}

  lemma PulseCases(held: seq<bv8>, reg: bv8, m: Msg)
    ensures m.kind != MSG_PULSE_REGISTER_BIT || m.p1 != REG_OUTPUT_1 || m.p2 >= 8 ==> held + Pulse(reg, m) == held
    ensures m.kind == MSG_PULSE_REGISTER_BIT && m.p1 == REG_OUTPUT_1 && m.p2 < 8 ==>
      Pulse(reg, m) == Steady(m.p3, reg ^ Relay(RelayOfBit(m.p2)))
  {}

  lemma RelaysAre(porta: bv8)
    ensures forall n :: 1 <= n <= 8 ==> (Driven(porta, n) <==> On(ReadOutputs(porta), n))
  {
    forall n | 1 <= n <= 8
      ensures Driven(porta, n) <==> On(ReadOutputs(porta), n)
    {
      OutputWiring(porta, n);
    }
  }

  lemma RelaysOrdered(porta: bv8, p: Panel, m: Msg, inputs: bv8)
    requires p.reg == ReadOutputs(porta)
    ensures forall n :: 1 <= n <= 8 ==>
      (On(Handle(p, m, inputs).panel.reg, n) <==> Ordered(Driven(porta, n), m, n))
  {
    forall n | 1 <= n <= 8
      ensures On(Handle(p, m, inputs).panel.reg, n) <==> Ordered(Driven(porta, n), m, n)
    {
      OutputWiring(porta, n);
      OrderIsObeyed(p, m, inputs, n);
    }
  }

  /** The report due on a subscribed register, if its value is news. */
  function ReportOf(s: Subscription, register: byte, value: bv8): History {
    if s.on && value != s.value then [Sent(Report(register, value, false))] else []
  }

  function Informed(s: Subscription, value: bv8): Subscription {
    if s.on && value != s.value then Subscription(true, value) else s
  }

  lemma InputCases(h: History, p: Panel, inputs: bv8)
    ensures var o := Panels.ReportInput(p, inputs);
      && o.panel == Panel(p.reg, Informed(p.input, inputs), p.output)
      && h + Sents(o.sent) == h + ReportOf(p.input, REG_INPUT_1, inputs)
  {}

  lemma OutputCases(h: History, p: Panel)
    ensures var o := Panels.ReportOutput(p);
      && o.panel == Panel(p.reg, p.input, Informed(p.output, p.reg))
      && h + Sents(o.sent) == h + ReportOf(p.output, REG_OUTPUT_1, p.reg)
  {}

  lemma SentsConcat(h: History, a: seq<Msg>, b: seq<Msg>)
    ensures h + Sents(a) + Sents(b) == h + Sents(a + b)
  {}

  /** The receive side: the bytes waiting, whether any have been overwritten, and all that were ever stored. */
  datatype Intake = Intake(waiting: seq<byte>, overrun: bool, arrived: seq<byte>)

  /** With no interrupts, what was waiting is what has been taken and what is left. */
  predicate Undisturbed(before: Intake, taken: seq<byte>, after: Intake) {
    before.waiting == taken + after.waiting && before.overrun == after.overrun && before.arrived == after.arrived
  }

  /** With the interrupt storing s meanwhile: all of it is on record, and with room for it nothing was overwritten. */
  predicate Stored(before: Intake, s: seq<byte>, after: Intake) {
    && after.arrived == before.arrived + s
    && |after.waiting| <= |before.waiting| + |s|
    && (|before.waiting| + |s| <= RX_CAPACITY ==> after.overrun == before.overrun)
  }

  lemma StoredMore(a: Intake, s: seq<byte>, b: Intake, t: seq<byte>, c: Intake)
    requires Stored(a, s, b) && Stored(b, t, c)
    ensures Stored(a, s + t, c)
  {}

  function Join(ss: seq<seq<byte>>): seq<byte> {
    if ss == [] then [] else Join(ss[..|ss| - 1]) + ss[|ss| - 1]
  }

  lemma NextStored(ss: seq<seq<byte>>, k: nat)
    requires k <= |ss|
    ensures if k < |ss| then Join(ss[..k + 1]) == Join(ss[..k]) + ss[k] else Join(ss[..k]) == Join(ss[..k]) + []
  {
    if k < |ss| { assert ss[..k + 1][..k] == ss[..k]; }
  }

  /** Taking `taken` after history h delivers just `found`, and if that is something, only with its last byte. */
  predicate Scan(c: Codec, h: History, taken: seq<byte>, found: seq<seq<byte>>) {
    && Deliveries(c, h + Gots(taken)) == Deliveries(c, h) + found
    && (found != [] ==> taken != [] && Deliveries(c, h + Gots(taken[..|taken| - 1])) == Deliveries(c, h))
  }

  /** The same, counting only: one window with the last byte, or none at all. */
  predicate Taken(c: Codec, h: History, taken: seq<byte>, found: bool) {
    && |Deliveries(c, h + Gots(taken))| == |Deliveries(c, h)| + (if found then 1 else 0)
    && (found ==> taken != [] && |Deliveries(c, h + Gots(taken[..|taken| - 1]))| == |Deliveries(c, h)|)
  }

  lemma ScanReads(c: Codec, h: History, taken: seq<byte>, found: seq<seq<byte>>)
    requires Scan(c, h, taken, found) && |found| <= 1
    ensures Taken(c, h, taken, found != [])
    ensures ValuesOf(c, Deliveries(c, h + Gots(taken)))
      == ValuesOf(c, Deliveries(c, h)) + if found == [] then [] else [c.value(found[0])]
  {
    var before := Deliveries(c, h);
    if found == [] {
      assert before + found == before;
    } else {
      ValuesAppend(c, before, found[0]);
      assert before + found == before + [found[0]];
    }
  }

  /** History k has the same intake as h, the same deliveries, and the sendings ms on top. */
  predicate OnlySent(c: Codec, h: History, k: History, ms: seq<Msg>) {
    Deliveries(c, k) == Deliveries(c, h) && SentIn(k) == SentIn(h) + ms && Received(k) == Received(h)
  }

  lemma {:induction false} AfterSents(c: Codec, h: History, ms: seq<Msg>)
    requires WellFramed(c)
    ensures OnlySent(c, h, h + Sents(ms), ms)
    decreases |ms|
  {
    if ms == [] {
      assert h + Sents(ms) == h;
    } else {
      var front, m := ms[..|ms| - 1], ms[|ms| - 1];
      LastSplit(ms);
      AfterSents(c, h, front);
      OnlySentMore(c, h, h + Sents(front), front, m);
      SentsMore(h, front, m);
    }
  }

  lemma LastSplit<T>(s: seq<T>)
    requires s != []
    ensures s == s[..|s| - 1] + [s[|s| - 1]]
  {}

  lemma SentsMore(h: History, ms: seq<Msg>, m: Msg)
    ensures h + Sents(ms + [m]) == h + Sents(ms) + [Sent(m)]
  {}

  lemma OnlySentMore(c: Codec, h: History, k: History, ms: seq<Msg>, m: Msg)
    requires WellFramed(c) && OnlySent(c, h, k, ms)
    ensures OnlySent(c, h, k + [Sent(m)], ms + [m])
  {
    AfterSending(c, k, m);
  }

  lemma ValuesAppend(c: Codec, ws: seq<seq<byte>>, w: seq<byte>)
    ensures ValuesOf(c, ws + [w]) == ValuesOf(c, ws) + [c.value(w)]
  {
    assert (ws + [w])[..|ws|] == ws;
  }

  /** Panel, messages and sendings are those of the polls, as far as histories go. */
  predicate Story(c: Codec, ts: seq<Tick>, h: History) {
    Messages(ts) == ValuesOf(c, Deliveries(c, h)) && SentIn(h) == Run(ts).sent
  }

  lemma TurnKeepsStory(c: Codec, ts: seq<Tick>, t: Tick, h: History, received: History)
    requires WellFramed(c) && Story(c, ts, h)
    requires SentIn(received) == SentIn(h)
    requires ValuesOf(c, Deliveries(c, received))
      == ValuesOf(c, Deliveries(c, h)) + Told(t)
    ensures Story(c, ts + [t], received + Sents(Panels.Poll(Run(ts).panel, t).sent))
    ensures Run(ts + [t]).panel == Panels.Poll(Run(ts).panel, t).panel
  {
    AfterSents(c, received, Panels.Poll(Run(ts).panel, t).sent);
    RunAppend(ts, t);
  }

  lemma RunAppend(ts: seq<Tick>, t: Tick)
    ensures var o := Panels.Poll(Run(ts).panel, t);
      Run(ts + [t]) == Outcome(o.panel, Run(ts).sent + o.sent)
    ensures Messages(ts + [t]) == Messages(ts) + Told(t)
  {
    assert (ts + [t])[..|ts|] == ts;
  }

  lemma Regroup(a: seq<byte>, b: byte, c: seq<byte>)
    ensures a + ([b] + c) == a + [b] + c
  {}

  lemma GotsNone(h: History)
    ensures h + Gots([]) == h
  {}

  lemma TakenMore(s: seq<byte>, b: byte)
    ensures (s + [b])[..|s + [b]| - 1] == s
  {}

  lemma GotsAppend(h: History, s: seq<byte>, b: byte)
    ensures h + Gots(s) + [Got(b)] == h + Gots(s + [b])
  {}

  lemma GotLast(h: History, b: byte)
    ensures SentIn(h + [Got(b)]) == SentIn(h) && Received(h + [Got(b)]) == Received(h) + [b]
  {
    assert (h + [Got(b)])[..|h|] == h;
  }

  lemma {:induction false} AfterGots(h: History, s: seq<byte>)
    ensures SentIn(h + Gots(s)) == SentIn(h) && Received(h + Gots(s)) == Received(h) + s
    decreases |s|
  {
    if s == [] {
      assert h + Gots(s) == h;
    } else {
      var t, b := s[..|s| - 1], s[|s| - 1];
      LastSplit(s);
      AfterGots(h, t);
      GotsAppend(h, t, b);
      GotLast(h + Gots(t), b);
    }
  }

  lemma WindowVerdict(c: Codec, w: seq<byte>)
    requires Wired(c) && |w| <= FRAME_LENGTH
    ensures c.accepts(w) <==> Check(w) == Ok
    ensures c.accepts(w) ==> c.value(w) == Values(w)
  {
    assert ChecksWindow(c, w);
  }

  class Device {
    const msgBuf: RingBuffer
    const rx: RingBuffer
    var porta: bv8
    var input: Subscription
    var output: Subscription
    var uart: seq<byte>              // every byte given to the transmitter

    ghost const codec: Codec
    ghost var hist: History          // what has passed through msgBuf
    ghost var arrived: seq<byte>     // every byte the interrupt has stored
    ghost var overrun: bool          // whether it ever stored one over an unread one
    ghost var ticks: seq<Tick>       // the polls so far
    ghost var held: seq<bv8>         // the relays at each millisecond of the pulses so far

    ghost predicate Shape()
      reads msgBuf, rx
    {
      && msgBuf != rx && msgBuf.buff != rx.buff
      && msgBuf.Valid() && msgBuf.buff.Length == FRAME_LENGTH
      && rx.Valid() && rx.buff.Length == RX_CAPACITY
    }

    /** Unless the interrupt has overrun the ring, every byte stored has either been taken out or is still there. */
    ghost predicate RxLinked()
      requires Shape()
      reads `hist, `arrived, `overrun, msgBuf, rx, rx.buff
    {
      !overrun ==> arrived == Received(hist) + rx.Contents()
    }

    /** The shared ring holds the end of the history, and the transmitter was given the frames sent. */
    ghost predicate MsgLinked()
      requires Shape()
      reads `hist, `uart, msgBuf, msgBuf.buff, rx
    {
      && msgBuf.Contents() == Window(codec, hist)
      && uart == Flat(codec, SentIn(hist))
    }

    ghost predicate Linked()
      reads `hist, `uart, `arrived, `overrun, msgBuf, msgBuf.buff, rx, rx.buff
    {
      Shape() && RxLinked() && MsgLinked() && Wired(codec)
    }

    ghost function PanelNow(): Panel
      reads `porta, `input, `output
    {
      Panel(ReadOutputs(porta), input, output)
    }

    /** Between polls: the messages handled are those delivered; panel, sendings and pulses are what the polls make of
        them. */
    ghost predicate Valid()
      reads this, msgBuf, msgBuf.buff, rx, rx.buff
    {
      && Linked()
      && Story(codec, ticks, hist)
      && PanelNow() == Run(ticks).panel
      && held == Pulsed(Messages(ticks))
    }

    constructor ()
      ensures Valid() && fresh(msgBuf) && fresh(msgBuf.buff) && fresh(rx) && fresh(rx.buff)
      ensures hist == [] && uart == [] && arrived == [] && !overrun && ticks == [] && held == []
      ensures porta == 0xFF && !input.on && !output.on
    {
      msgBuf := new RingBuffer(FRAME_LENGTH);
      rx := new RingBuffer(RX_CAPACITY);
      porta := 0xFF;
      input, output := Subscription(false, 0), Subscription(false, 0);
      codec := WireCodec();
      hist, uart, arrived, overrun, ticks, held := [], [], [], false, [], [];
      new;
      WireIsWired();
    }

    /** A byte arrives. Bytes with a parity error are not stored. */
    method RxInterrupt(c: byte, parityError: bool)
      requires Shape() && RxLinked()
      modifies rx, rx.buff, `arrived, `overrun
      ensures Shape() && rx.buff == old(rx.buff) && RxLinked()
      ensures parityError ==> rx.Contents() == old(rx.Contents()) && arrived == old(arrived) && overrun == old(overrun)
      ensures !parityError ==>
        && rx.Contents() == Keep(old(rx.Contents()) + [c], RX_CAPACITY)
        && arrived == old(arrived) + [c]
        && overrun == (old(overrun) || |old(rx.Contents())| == RX_CAPACITY)
    {
      if !parityError {
        overrun := overrun || rx.size == RX_CAPACITY;
        arrived := arrived + [c];
        rx.PushBack(c);
      }
    }

    method Arrivals(s: seq<byte>)
      requires Shape() && RxLinked()
      modifies rx, rx.buff, `arrived, `overrun
      ensures Shape() && rx.buff == old(rx.buff) && RxLinked()
      ensures arrived == old(arrived) + s
      ensures |old(rx.Contents())| + |s| <= RX_CAPACITY ==>
        rx.Contents() == old(rx.Contents()) + s && overrun == old(overrun)
      ensures overrun == (old(overrun) || |old(rx.Contents())| + |s| > RX_CAPACITY)
    {
      for i := 0 to |s|
        invariant Shape() && rx.buff == old(rx.buff) && RxLinked()
        invariant arrived == old(arrived) + s[..i]
        invariant overrun == (old(overrun) || |old(rx.Contents())| + i > RX_CAPACITY)
        invariant |rx.Contents()|
          == if |old(rx.Contents())| + i > RX_CAPACITY then RX_CAPACITY else |old(rx.Contents())| + i
        invariant |old(rx.Contents())| + |s| <= RX_CAPACITY ==>
          rx.Contents() == old(rx.Contents()) + s[..i] && overrun == old(overrun)
      {
        RxInterrupt(s[i], false);
      }
      assert s[..|s|] == s;
    }

    /** One byte from the receive ring into the window, and the verdict on the window. */
    method ShiftByte() returns (accepted: bool, val: byte)
      requires Shape() && Wired(codec) && rx.Contents() != []
      modifies rx, msgBuf, msgBuf.buff
      ensures Shape() && rx.buff == old(rx.buff) && msgBuf.buff == old(msgBuf.buff)
      ensures old(rx.Contents()) == [val] + rx.Contents()
      ensures msgBuf.Contents() == Keep(old(msgBuf.Contents()) + [val], FRAME_LENGTH)
      ensures accepted <==> codec.accepts(msgBuf.Contents())
    {
      val := rx.PopFront();
      msgBuf.PushBack(val);
      var status := Validate(msgBuf);
      WindowVerdict(codec, msgBuf.Contents());
      accepted := status == Ok;
    }

    method TakeByte() returns (accepted: bool, ghost val: byte)
      requires Linked() && rx.Contents() != []
      modifies rx, msgBuf, msgBuf.buff, `hist
      ensures Linked() && rx.buff == old(rx.buff) && msgBuf.buff == old(msgBuf.buff)
      ensures hist == old(hist) + [Got(val)] && SentIn(hist) == SentIn(old(hist))
      ensures old(rx.Contents()) == [val] + rx.Contents() && Received(hist) == Received(old(hist)) + [val]
      ensures accepted <==> codec.accepts(msgBuf.Contents())
      ensures Deliveries(codec, hist) == Deliveries(codec, old(hist)) + if accepted then [msgBuf.Contents()] else []
    {
      var item;
      accepted, item := ShiftByte();
      val := item;
      AfterByte(codec, hist, val);
      Regroup(Received(hist), val, rx.Contents());
      hist := hist + [Got(val)];
    }

    /** Moves received bytes into the window until it is accepted or none are left. `meanwhile[k]` is what the
        interrupt stores before the k-th look at the ring. */
    method Read(meanwhile: seq<seq<byte>>) returns (ok: bool, ghost taken: seq<byte>, looks: nat)
      requires Linked()
      modifies rx, rx.buff, msgBuf, msgBuf.buff, `hist, `arrived, `overrun
      ensures Linked() && rx.buff == old(rx.buff) && msgBuf.buff == old(msgBuf.buff)
      ensures hist == old(hist) + Gots(taken) && SentIn(hist) == SentIn(old(hist))
      ensures Received(hist) == Received(old(hist)) + taken
      ensures Fruit(old(hist), ok, taken)
      ensures !ok ==> rx.Contents() == []
      ensures looks <= |meanwhile| && Stored(old(IntakeNow()), Join(meanwhile[..looks]), IntakeNow())
      ensures meanwhile == [] ==> Undisturbed(old(IntakeNow()), taken, IntakeNow())
    {
      var k := 0;
      ok, taken := false, [];
      GotsNone(hist);
      while !ok
        invariant 0 <= k <= |meanwhile|
        invariant Linked() && rx.buff == old(rx.buff) && msgBuf.buff == old(msgBuf.buff)
        invariant hist == old(hist) + Gots(taken)
        invariant Fruit(old(hist), ok, taken)
        invariant Stored(old(IntakeNow()), Join(meanwhile[..k]), IntakeNow())
        invariant meanwhile == [] ==> Undisturbed(old(IntakeNow()), taken, IntakeNow())
        decreases !ok, |meanwhile| - k, |rx.Contents()|
      {
        var more;
        ghost var val;
        ghost var before, now := IntakeNow(), Join(meanwhile[..k]);
        var stored := if k < |meanwhile| then meanwhile[k] else [];
        NextStored(meanwhile, k);
        k := if k < |meanwhile| then k + 1 else k;
        more, ok, val := Look(stored);
        StoredMore(old(IntakeNow()), now, before, stored, IntakeNow());
        if !more {
          break;
        }
        GotsAppend(old(hist), taken, val);
        Regroup(taken, val, rx.Contents());
        TakenMore(taken, val);
        taken := taken + [val];
      }
      looks := k;
      AfterGots(old(hist), taken);
    }

    /** One look at the receive ring, after the interrupt has stored some more: take a byte if there is one. */
    method Look(stored: seq<byte>) returns (more: bool, accepted: bool, ghost val: byte)
      requires Linked()
      modifies rx, rx.buff, msgBuf, msgBuf.buff, `hist, `arrived, `overrun
      ensures Linked() && rx.buff == old(rx.buff) && msgBuf.buff == old(msgBuf.buff)
      ensures !more ==> rx.Contents() == [] && hist == old(hist) && !accepted
      ensures more ==> hist == old(hist) + [Got(val)] && (accepted <==> codec.accepts(msgBuf.Contents()))
      ensures more ==>
        Deliveries(codec, hist) == Deliveries(codec, old(hist)) + if accepted then [msgBuf.Contents()] else []
      ensures Stored(old(IntakeNow()), stored, IntakeNow())
      ensures stored == [] ==> Undisturbed(old(IntakeNow()), if more then [val] else [], IntakeNow())
    {
      accepted, val := false, 0;
      StoreFirst(stored);
      more := rx.size != 0;
      if more {
        accepted, val := TakeByte();
      }
    }

    method StoreFirst(stored: seq<byte>)
      requires Shape() && RxLinked()
      modifies rx, rx.buff, `arrived, `overrun
      ensures Shape() && rx.buff == old(rx.buff) && RxLinked()
      ensures Stored(old(IntakeNow()), stored, IntakeNow())
      ensures stored == [] ==> IntakeNow() == old(IntakeNow())
    {
      if stored != [] {
        Arrivals(stored);
      }
    }

    /** One interrupt between polls. */
    method Interrupted(c: byte, parityError: bool)
      requires Valid()
      modifies rx, rx.buff, `arrived, `overrun
      ensures Valid() && rx.buff == old(rx.buff)
      ensures Stored(old(IntakeNow()), if parityError then [] else [c], IntakeNow())
    {
      RxInterrupt(c, parityError);
    }

    /** Bytes stored between polls. */
    method Overhear(s: seq<byte>)
      requires Valid()
      modifies rx, rx.buff, `arrived, `overrun
      ensures Valid() && rx.buff == old(rx.buff)
      ensures Stored(old(IntakeNow()), s, IntakeNow())
    {
      Arrivals(s);
    }

    /** What taking `taken` after history h has come to: with ok, the last byte completed an accepted window,
        and it was the first to do so; otherwise none has. */
    ghost predicate Fruit(h: History, ok: bool, taken: seq<byte>)
      requires Shape()
      reads msgBuf, msgBuf.buff, rx
    {
      Scan(codec, h, taken, if ok then [msgBuf.Contents()] else []) && (ok ==> codec.accepts(msgBuf.Contents()))
    }

    ghost function IntakeNow(): Intake
      requires Shape()
      reads msgBuf, rx, rx.buff, `overrun, `arrived
    {
      Intake(rx.Contents(), overrun, arrived)
    }

    // -------------------------------------------------------------------------
    // Sending
    // -------------------------------------------------------------------------

    method Write() returns (ok: bool)
      requires Shape() && Wired(codec)
      modifies `uart
      ensures ok <==> codec.accepts(msgBuf.Contents())
      ensures uart == old(uart) + if ok then msgBuf.Contents() else []
    {
      var status := Validate(msgBuf);
      WindowVerdict(codec, msgBuf.Contents());
      if status != Ok {
        return false;
      }
      for i := 0 to msgBuf.size
        invariant uart == old(uart) + msgBuf.Contents()[..i]
      {
        var c := msgBuf.At(i);
        uart := uart + [c];
      }
      return true;
    }

    method Transmit(kind: byte, p1: byte, p2: byte, p3: byte) returns (ok: bool)
      requires Shape() && Wired(codec)
      modifies msgBuf, msgBuf.buff, `uart
      ensures Shape() && msgBuf.buff == old(msgBuf.buff)
      ensures msgBuf.Contents() == codec.frame(Msg(kind, p1, p2, p3))
      ensures ok && uart == old(uart) + msgBuf.Contents()
    {
      ghost var m := Msg(kind, p1, p2, p3);
      SetBytes(msgBuf, kind, p1, p2, p3);
      assert BuildsFrame(codec, m);
      assert GoodFrame(codec, m);
      ok := Write();
    }

    /** The frame takes the place of whatever was in the shared ring, and always goes out. */
    method DispatchMessage(kind: byte, p1: byte, p2: byte, p3: byte) returns (ok: bool)
      requires Linked()
      modifies msgBuf, msgBuf.buff, `hist, `uart
      ensures Linked() && msgBuf.buff == old(msgBuf.buff)
      ensures ok && hist == old(hist) + [Sent(Msg(kind, p1, p2, p3))]
      ensures IntakeNow() == old(IntakeNow())
    {
      ok := Transmit(kind, p1, p2, p3);
      AfterSending(codec, hist, Msg(kind, p1, p2, p3));
      FlatAppend(codec, SentIn(hist), Msg(kind, p1, p2, p3));
      hist := hist + [Sent(Msg(kind, p1, p2, p3))];
    }

    // -------------------------------------------------------------------------
    // Handlers
    // -------------------------------------------------------------------------

    method OnReadRegister(register: byte, pins: Pins)
      requires Linked()
      modifies msgBuf, msgBuf.buff, `hist, `uart
      ensures Linked() && msgBuf.buff == old(msgBuf.buff)
      ensures Did(old(hist), Outcome(old(PanelNow()), [ReadReply(old(PanelNow()).reg, register, InputsOf(pins))]))
      ensures IntakeNow() == old(IntakeNow())
    {
      SentsShort(hist, [ReadReply(PanelNow().reg, register, InputsOf(pins))]);
      var sent;
      if register == REG_INPUT_1 {
        var inputs := InputsOf(pins);
        sent := DispatchMessage(MSG_WRITE_REGISTER, REG_INPUT_1, inputs as byte, 0xFF);
      } else if register == REG_OUTPUT_1 {
        var outputs := ReadOutputs(porta);
        sent := DispatchMessage(MSG_WRITE_REGISTER, REG_OUTPUT_1, outputs as byte, 0xFF);
      } else {
        sent := DispatchMessage(MSG_WRITE_REGISTER, REG_ERR_UNKNOWN, 0, 0xFF);
      }
    }

    method OnWriteRegister(register: byte, value: byte, mask: byte)
      modifies `porta
      ensures ReadOutputs(porta) == Effect(old(ReadOutputs(porta)), Msg(MSG_WRITE_REGISTER, register, value, mask))
    {
      if register == REG_OUTPUT_1 {
        MaskedWrite(porta, value as bv8, mask as bv8);
        porta := WriteOutputsMasked(porta, value as bv8, mask as bv8);
      }
    }

    method OnWriteRegisterBit(register: byte, bit: byte, state: bool)
      requires bit < 8
      modifies `porta
      ensures var was := old(ReadOutputs(porta));
        ReadOutputs(porta) == if register == REG_OUTPUT_1 then Switched(was, bit, state) else was
    {
      if register == REG_OUTPUT_1 {
        BitWrite(porta, bit);
        if state {
          porta := SetPin(porta, bit);
        } else {
          porta := ClearPin(porta, bit);
        }
      }
    }

    /** Turns a relay over for so many milliseconds, and back. The relays during each of them go on record. */
    method OnPulseRegisterBit(register: byte, bit: byte, durationMs: byte)
      requires bit < 8
      modifies `porta, `held
      ensures porta == old(porta)
      ensures held == old(held)
        + Pulse(old(ReadOutputs(porta)), Msg(MSG_PULSE_REGISTER_BIT, register, bit, durationMs))
    {
      PulseCases(held, ReadOutputs(porta), Msg(MSG_PULSE_REGISTER_BIT, register, bit, durationMs));
      if register == REG_OUTPUT_1 {
        PulseIsTransient(porta, bit);
        porta := TogglePin(porta, bit);
        Hold(durationMs);
        porta := TogglePin(porta, bit);
      }
    }

    method Hold(durationMs: byte)
      modifies `held
      ensures held == old(held) + Steady(durationMs, ReadOutputs(porta))
    {
      for i := durationMs downto 0
        invariant held == old(held) + Steady(durationMs - i, ReadOutputs(porta))
      {
        held := held + [ReadOutputs(porta)];
      }
    }

    method OnSubscribeRegister(register: byte, cancel: bool, pins: Pins)
      requires Linked()
      modifies msgBuf, msgBuf.buff, `hist, `uart, `input, `output
      ensures Linked() && msgBuf.buff == old(msgBuf.buff)
      ensures Did(old(hist), Subscribe(old(PanelNow()), register, cancel, InputsOf(pins)))
      ensures IntakeNow() == old(IntakeNow())
    {
      if register == REG_INPUT_1 {
        OnSubscribeInput(cancel, pins);
      } else if register == REG_OUTPUT_1 {
        OnSubscribeOutput(cancel, InputsOf(pins));
      } else {
        SubscribeCases(hist, PanelNow(), register, cancel, InputsOf(pins));
        var sent := DispatchMessage(MSG_SUBSCRIBE_REGISTER, REG_ERR_UNKNOWN, 0, 1);
      }
    }

    method OnSubscribeInput(cancel: bool, pins: Pins)
      requires Linked()
      modifies msgBuf, msgBuf.buff, `hist, `uart, `input
      ensures Linked() && msgBuf.buff == old(msgBuf.buff)
      ensures Did(old(hist), Subscribe(old(PanelNow()), REG_INPUT_1, cancel, InputsOf(pins)))
      ensures IntakeNow() == old(IntakeNow())
    {
      SubscribeCases(hist, PanelNow(), REG_INPUT_1, cancel, InputsOf(pins));
      SubscribeInput(cancel, pins);
    }

    method SubscribeInput(cancel: bool, pins: Pins)
      requires Linked()
      modifies msgBuf, msgBuf.buff, `hist, `uart, `input
      ensures Linked() && msgBuf.buff == old(msgBuf.buff)
      ensures input == Subscription(!cancel, if cancel then 0 else InputsOf(pins))
      ensures hist == old(hist) + [Sent(Report(REG_INPUT_1, InputsOf(pins), cancel))]
      ensures IntakeNow() == old(IntakeNow())
    {
      var inputs := InputsOf(pins);
      input := Subscription(!cancel, if cancel then 0 else inputs);
      var sent := DispatchMessage(MSG_SUBSCRIBE_REGISTER, REG_INPUT_1, inputs as byte, if cancel then 1 else 0);
    }

    method OnSubscribeOutput(cancel: bool, ghost inputs: bv8)
      requires Linked()
      modifies msgBuf, msgBuf.buff, `hist, `uart, `output
      ensures Linked() && msgBuf.buff == old(msgBuf.buff)
      ensures Did(old(hist), Subscribe(old(PanelNow()), REG_OUTPUT_1, cancel, inputs))
      ensures IntakeNow() == old(IntakeNow())
    {
      ghost var p := PanelNow();
      SubscribeCases(hist, p, REG_OUTPUT_1, cancel, inputs);
      SubscribeOutput(cancel);
      assert PanelNow() == Panel(p.reg, p.input, output);
    }

    method SubscribeOutput(cancel: bool)
      requires Linked()
      modifies msgBuf, msgBuf.buff, `hist, `uart, `output
      ensures Linked() && msgBuf.buff == old(msgBuf.buff)
      ensures output == Subscription(!cancel, if cancel then 0 else ReadOutputs(porta))
      ensures hist == old(hist) + [Sent(Report(REG_OUTPUT_1, ReadOutputs(porta), cancel))]
      ensures IntakeNow() == old(IntakeNow())
    {
      var outputs := ReadOutputs(porta);
      output := Subscription(!cancel, if cancel then 0 else outputs);
      var sent := DispatchMessage(MSG_SUBSCRIBE_REGISTER, REG_OUTPUT_1, outputs as byte, if cancel then 1 else 0);
    }

    /** Every message has its effect on panel and history, puts each relay where it orders, and holds a relay turned
        over as long as it says. */
    method ProcessMessage(kind: byte, p1: byte, p2: byte, p3: byte, pins: Pins)
      requires Linked()
      modifies msgBuf, msgBuf.buff, `hist, `uart, `porta, `held, `input, `output
      ensures Linked() && msgBuf.buff == old(msgBuf.buff)
      ensures Did(old(hist), Handle(old(PanelNow()), Msg(kind, p1, p2, p3), InputsOf(pins)))
      ensures IntakeNow() == old(IntakeNow())
      ensures held == old(held) + Pulse(old(ReadOutputs(porta)), Msg(kind, p1, p2, p3))
      ensures forall n :: 1 <= n <= 8 ==>
        (Driven(porta, n) <==> Ordered(Driven(old(porta), n), Msg(kind, p1, p2, p3), n))
    {
      RelaysOrdered(porta, PanelNow(), Msg(kind, p1, p2, p3), InputsOf(pins));
      Process(kind, p1, p2, p3, pins);
      RelaysAre(porta);
    }

    /** What handling m has done since history h, with the panel at p and the pulses at was. */
    ghost predicate Obeyed(h: History, p: Panel, was: seq<bv8>, m: Msg, inputs: bv8)
      reads `hist, `porta, `input, `output, `held
    {
      Did(h, Handle(p, m, inputs)) && held == was + Pulse(p.reg, m)
    }

    method Process(kind: byte, p1: byte, p2: byte, p3: byte, pins: Pins)
      requires Linked()
      modifies msgBuf, msgBuf.buff, `hist, `uart, `porta, `held, `input, `output
      ensures Linked() && msgBuf.buff == old(msgBuf.buff)
      ensures Obeyed(old(hist), old(PanelNow()), old(held), Msg(kind, p1, p2, p3), InputsOf(pins))
      ensures IntakeNow() == old(IntakeNow())
    {
      if kind == MSG_PING || kind == MSG_READ_REGISTER || kind == MSG_SUBSCRIBE_REGISTER {
        PulseCases(held, PanelNow().reg, Msg(kind, p1, p2, p3));
        ProcessRequest(kind, p1, p2, p3, pins);
      } else {
        ProcessOthers(kind, p1, p2, p3, InputsOf(pins));
      }
    }

    method ProcessOthers(kind: byte, p1: byte, p2: byte, p3: byte, ghost inputs: bv8)
      requires Linked() && kind != MSG_PING && kind != MSG_READ_REGISTER && kind != MSG_SUBSCRIBE_REGISTER
      modifies `porta, `held
      ensures Linked()
      ensures Obeyed(old(hist), old(PanelNow()), old(held), Msg(kind, p1, p2, p3), inputs)
      ensures IntakeNow() == old(IntakeNow())
    {
      HandleCases(PanelNow(), Msg(kind, p1, p2, p3), inputs);
      ProcessSilently(kind, p1, p2, p3);
    }

    /** The message types that draw a reply. */
    method ProcessRequest(kind: byte, p1: byte, p2: byte, p3: byte, pins: Pins)
      requires Linked() && (kind == MSG_PING || kind == MSG_READ_REGISTER || kind == MSG_SUBSCRIBE_REGISTER)
      modifies msgBuf, msgBuf.buff, `hist, `uart, `input, `output
      ensures Linked() && msgBuf.buff == old(msgBuf.buff)
      ensures Did(old(hist), Handle(old(PanelNow()), Msg(kind, p1, p2, p3), InputsOf(pins)))
      ensures IntakeNow() == old(IntakeNow())
    {
      HandleCases(PanelNow(), Msg(kind, p1, p2, p3), InputsOf(pins));
      if kind == MSG_PING {
        SentsShort(hist, [Msg(MSG_PONG, p1, p2, p3)]);
        var sent := DispatchMessage(MSG_PONG, p1, p2, p3);
      } else if kind == MSG_READ_REGISTER {
        OnReadRegister(p1, pins);
      } else {
        OnSubscribeRegister(p1, p3 != 0, pins);
      }
    }

    /** The message types that draw no reply. A pong is our own ping come back; an unknown type is ignored. */
    method ProcessSilently(kind: byte, p1: byte, p2: byte, p3: byte)
      requires kind != MSG_PING && kind != MSG_READ_REGISTER && kind != MSG_SUBSCRIBE_REGISTER
      modifies `porta, `held
      ensures held == old(held) + Pulse(old(ReadOutputs(porta)), Msg(kind, p1, p2, p3))
      ensures var p := old(PanelNow());
        Did(old(hist), Outcome(Panel(Effect(p.reg, Msg(kind, p1, p2, p3)), p.input, p.output), []))
    {
      SentsShort(hist, []);
      PulseCases(held, ReadOutputs(porta), Msg(kind, p1, p2, p3));
      if kind == MSG_PONG {
      } else if kind == MSG_WRITE_REGISTER {
        OnWriteRegister(p1, p2, p3);
      } else if kind == MSG_WRITE_REGISTER_BIT {
        if p2 < 0x08 {
          OnWriteRegisterBit(p1, p2, p3 != 0);
        }
      } else if kind == MSG_PULSE_REGISTER_BIT {
        if p2 < 0x08 {
          OnPulseRegisterBit(p1, p2, p3);
        }
      }
    }

    /** What a handler has done since history h. */
    ghost predicate Did(h: History, o: Outcome)
      reads `hist, `porta, `input, `output
    {
      PanelNow() == o.panel && hist == h + Sents(o.sent)
    }

    method OnPoll(pins: Pins)
      requires Linked()
      modifies msgBuf, msgBuf.buff, `hist, `uart, `input, `output
      ensures Linked() && msgBuf.buff == old(msgBuf.buff)
      ensures Did(old(hist), ReportChanges(old(PanelNow()), InputsOf(pins)))
      ensures IntakeNow() == old(IntakeNow())
    {
      ghost var first := Panels.ReportInput(PanelNow(), InputsOf(pins));
      PollInput(pins);
      PollOutput();
      SentsConcat(old(hist), first.sent, Panels.ReportOutput(first.panel).sent);
    }

    method PollInput(pins: Pins)
      requires Linked()
      modifies msgBuf, msgBuf.buff, `hist, `uart, `input
      ensures Linked() && msgBuf.buff == old(msgBuf.buff)
      ensures IntakeNow() == old(IntakeNow())
      ensures Did(old(hist), Panels.ReportInput(old(PanelNow()), InputsOf(pins)))
    {
      InputCases(hist, PanelNow(), InputsOf(pins));
      ReportInput(pins);
    }

    method ReportInput(pins: Pins)
      requires Linked()
      modifies msgBuf, msgBuf.buff, `hist, `uart, `input
      ensures Linked() && msgBuf.buff == old(msgBuf.buff)
      ensures IntakeNow() == old(IntakeNow())
      ensures input == Informed(old(input), InputsOf(pins))
      ensures hist == old(hist) + ReportOf(old(input), REG_INPUT_1, InputsOf(pins))
    {
      if input.on {
        var inputs := InputsOf(pins);
        if inputs != input.value {
          // value changed
          input := input.(value := inputs);
          var sent := DispatchMessage(MSG_SUBSCRIBE_REGISTER, REG_INPUT_1, inputs as byte, 0);
        }
      }
    }

    method PollOutput()
      requires Linked()
      modifies msgBuf, msgBuf.buff, `hist, `uart, `output
      ensures Linked() && msgBuf.buff == old(msgBuf.buff)
      ensures IntakeNow() == old(IntakeNow())
      ensures Did(old(hist), Panels.ReportOutput(old(PanelNow())))
    {
      OutputCases(hist, PanelNow());
      ReportOutput();
    }

    method ReportOutput()
      requires Linked()
      modifies msgBuf, msgBuf.buff, `hist, `uart, `output
      ensures Linked() && msgBuf.buff == old(msgBuf.buff)
      ensures IntakeNow() == old(IntakeNow())
      ensures output == Informed(old(output), ReadOutputs(porta))
      ensures hist == old(hist) + ReportOf(old(output), REG_OUTPUT_1, ReadOutputs(porta))
    {
      if output.on {
        var outputs := ReadOutputs(porta);
        if outputs != output.value {
          // value changed
          output := output.(value := outputs);
          var sent := DispatchMessage(MSG_SUBSCRIBE_REGISTER, REG_OUTPUT_1, outputs as byte, 0);
        }
      }
    }

    // -------------------------------------------------------------------------
    // The main loop
    // -------------------------------------------------------------------------

    /** The message read in this turn, if a window was accepted. */
    method Receive(meanwhile: seq<seq<byte>>) returns (msg: Option<Msg>, ghost taken: seq<byte>, looks: nat)
      requires Linked()
      modifies rx, rx.buff, msgBuf, msgBuf.buff, `hist, `arrived, `overrun
      ensures Linked() && rx.buff == old(rx.buff) && msgBuf.buff == old(msgBuf.buff)
      ensures hist == old(hist) + Gots(taken) && SentIn(hist) == SentIn(old(hist))
      ensures Received(hist) == Received(old(hist)) + taken
      ensures ValuesOf(codec, Deliveries(codec, hist)) ==
        ValuesOf(codec, Deliveries(codec, old(hist))) + if msg.Some? then [msg.value] else []
      ensures Taken(codec, old(hist), taken, msg.Some?)
      ensures msg == None ==> rx.Contents() == []
      ensures looks <= |meanwhile| && Stored(old(IntakeNow()), Join(meanwhile[..looks]), IntakeNow())
      ensures meanwhile == [] ==> Undisturbed(old(IntakeNow()), taken, IntakeNow())
    {
      var ok;
      ok, taken, looks := Read(meanwhile);
      msg := None;
      if ok {
        var got, kind, p1, p2, p3 := GetMessage();
        if got {
          msg := Some(Msg(kind, p1, p2, p3));
        }
      }
      ScanReads(codec, old(hist), taken, if ok then [msgBuf.Contents()] else []);
    }

    method GetMessage() returns (got: bool, kind: byte, p1: byte, p2: byte, p3: byte)
      requires Shape() && Wired(codec)
      ensures got <==> codec.accepts(msgBuf.Contents())
      ensures got ==> Msg(kind, p1, p2, p3) == codec.value(msgBuf.Contents())
    {
      got, kind, p1, p2, p3 := GetBytes(msgBuf);
      WindowVerdict(codec, msgBuf.Contents());
    }

    method React(msg: Option<Msg>, early: Pins, late: Pins)
      requires Linked()
      modifies msgBuf, msgBuf.buff, `hist, `uart, `porta, `held, `input, `output
      ensures Linked() && msgBuf.buff == old(msgBuf.buff)
      ensures IntakeNow() == old(IntakeNow())
      ensures Reacted(old(hist), old(PanelNow()), old(held), Tick(msg, InputsOf(early), InputsOf(late)))
    {
      ghost var t := Tick(msg, InputsOf(early), InputsOf(late));
      ghost var h := Handled(PanelNow(), t);
      ReactToMessage(msg, early, t);
      OnPoll(late);
      SentsConcat(old(hist), h.sent, ReportChanges(h.panel, t.late).sent);
    }

    /** What a poll t has done since history h, with the panel at p and the pulses at was. */
    ghost predicate Reacted(h: History, p: Panel, was: seq<bv8>, t: Tick)
      reads `hist, `porta, `input, `output, `held
    {
      Did(h, Panels.Poll(p, t)) && held == was + PulseTold(p.reg, t)
    }

    method ReactToMessage(msg: Option<Msg>, pins: Pins, ghost t: Tick)
      requires Linked() && t.msg == msg && t.early == InputsOf(pins)
      modifies msgBuf, msgBuf.buff, `hist, `uart, `porta, `held, `input, `output
      ensures Linked() && msgBuf.buff == old(msgBuf.buff)
      ensures Did(old(hist), Handled(old(PanelNow()), t))
      ensures IntakeNow() == old(IntakeNow())
      ensures held == old(held) + PulseTold(old(PanelNow()).reg, t)
    {
      SentsShort(hist, []);
      if msg.Some? {
        ProcessMessage(msg.value.kind, msg.value.p1, msg.value.p2, msg.value.p3, pins);
      } else {
        assert held + [] == held;
      }
    }

    /** The two halves of a turn: take in at most one message, then react. */
    method TakeTurn(meanwhile: seq<seq<byte>>, early: Pins, late: Pins)
        returns (ghost t: Tick, ghost taken: seq<byte>, looks: nat)
      requires Linked()
      modifies rx, rx.buff, msgBuf, msgBuf.buff
      modifies `hist, `uart, `arrived, `overrun, `porta, `held, `input, `output
      ensures Linked() && rx.buff == old(rx.buff) && msgBuf.buff == old(msgBuf.buff)
      ensures t.early == InputsOf(early) && t.late == InputsOf(late)
      ensures Reacted(old(hist) + Gots(taken), old(PanelNow()), old(held), t)
      ensures SentIn(old(hist) + Gots(taken)) == SentIn(old(hist))
      ensures ValuesOf(codec, Deliveries(codec, old(hist) + Gots(taken)))
        == ValuesOf(codec, Deliveries(codec, old(hist))) + Told(t)
      ensures Taken(codec, old(hist), taken, t.msg.Some?)
      ensures t.msg == None ==> rx.Contents() == []
      ensures looks <= |meanwhile| && Stored(old(IntakeNow()), Join(meanwhile[..looks]), IntakeNow())
      ensures meanwhile == [] ==> Undisturbed(old(IntakeNow()), taken, IntakeNow())
    {
      var msg;
      msg, taken, looks := Receive(meanwhile);
      t := Tick(msg, InputsOf(early), InputsOf(late));
      React(msg, early, late);
    }

    /** One turn: at most one message is taken and handled, then changes are reported. `early` and `late` are the
        pins as the handler and the reporting find them. */
    method Poll(meanwhile: seq<seq<byte>>, early: Pins, late: Pins)
        returns (ghost t: Tick, ghost taken: seq<byte>, looks: nat)
      requires Valid()
      modifies rx, rx.buff, msgBuf, msgBuf.buff
      modifies `hist, `uart, `arrived, `overrun, `porta, `held, `input, `output, `ticks
      ensures Valid() && rx.buff == old(rx.buff) && msgBuf.buff == old(msgBuf.buff)
      ensures ticks == old(ticks) + [t] && t.early == InputsOf(early) && t.late == InputsOf(late)
      ensures hist == old(hist) + Gots(taken) + Sents(Panels.Poll(old(PanelNow()), t).sent)
      ensures Taken(codec, old(hist), taken, t.msg.Some?)
      ensures t.msg == None ==> rx.Contents() == []
      ensures looks <= |meanwhile| && Stored(old(IntakeNow()), Join(meanwhile[..looks]), IntakeNow())
      ensures meanwhile == [] ==> Undisturbed(old(IntakeNow()), taken, IntakeNow())
    {
      t, taken, looks := TakeTurn(meanwhile, early, late);
      TurnKeepsStory(codec, ticks, t, old(hist), old(hist) + Gots(taken));
      PulsedMore(ticks, t);
      ticks := ticks + [t];
    }
  }

  // ---------------------------------------------------------------------------
  // Every run of the device
  // ---------------------------------------------------------------------------

  lemma RelaysFollow(porta: bv8, ms: seq<Msg>)
    requires ReadOutputs(porta) == RegisterAfter(ms)
    ensures forall n :: 1 <= n <= 8 ==> (Driven(porta, n) <==> LastOrder(ms, n))
  {
    forall n | 1 <= n <= 8
      ensures Driven(porta, n) <==> LastOrder(ms, n)
    {
      OutputWiring(porta, n);
      LastOrderHolds(ms, n);
    }
  }

  /** At any moment between polls, whatever the interrupts, noise and pins have done: each relay is driven exactly if
      the last message delivered with an order for it said so, the pulses held are those the messages asked for, a
      subscribed register has been reported as it is, the device has sent no more than it was told and saw, it never
      pings, and what went out on the line is its frames back to back. */
  lemma DeviceInvariant(d: Device)
    requires d.Valid()
    ensures var told, sent, reg := ValuesOf(d.codec, Deliveries(d.codec, d.hist)), SentIn(d.hist), ReadOutputs(d.porta);
      && reg == RegisterAfter(told) && d.held == Pulsed(told)
      && (forall n :: 1 <= n <= 8 ==> (Driven(d.porta, n) <==> LastOrder(told, n)))
      && LastReport(sent, REG_OUTPUT_1) == (if Wanted(told, REG_OUTPUT_1) then Some(reg as byte) else None)
      && |sent| <= |told| + InputChanges(d.ticks)
      && (forall m :: m in sent ==> m.kind != MSG_PING)
      && d.uart == Flat(d.codec, sent)
  {
    RegisterFollowsMessages(d.ticks);
    RelaysFollow(d.porta, Messages(d.ticks));
    ReportsAreCurrent(d.ticks);
    TrafficIsBounded(d.ticks);
  }

  /** From the host's side of the wire, with replies and reports going out at any moment: if the bytes stored are noise
      without an opening bracket followed by the packets of ms, nothing was overwritten and everything has been read,
      then the device has handled exactly those of ms no sending cut in two, in order, each relay is driven exactly if
      the last of these with an order for it said so, and the pulses held are theirs. It has handled all of ms exactly
      if nothing went out inside an incoming frame. */
  lemma CommandsAreObeyed(d: Device, noise: seq<byte>, ms: seq<Msg>)
    requires d.Valid() && !d.overrun && d.rx.Contents() == []
    requires d.arrived == noise + Wire(d.codec, ms) && BEGIN !in noise
    ensures Messages(d.ticks) == Surviving(d.hist, |noise|, ms)
    ensures ReadOutputs(d.porta) == RegisterAfter(Surviving(d.hist, |noise|, ms))
    ensures forall n :: 1 <= n <= 8 ==> (Driven(d.porta, n) <==> LastOrder(Surviving(d.hist, |noise|, ms), n))
    ensures d.held == Pulsed(Surviving(d.hist, |noise|, ms))
    ensures Messages(d.ticks) == ms <==> SendsBetweenFrames(d.hist, |noise|)
  {
    assert Received(d.hist) + [] == Received(d.hist);
    SurvivorsArrive(d.codec, d.hist, noise, ms);
    AllSurvive(d.hist, |noise|, ms);
    RegisterFollowsMessages(d.ticks);
    RelaysFollow(d.porta, Messages(d.ticks));
  }
}
