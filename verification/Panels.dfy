/**
 What the device does with the messages it is handed, at the level of its two registers: the
 eight relays it drives, the eight inputs it watches, and a subscription to each. One poll
 handles at most one message and then reports changes to subscribed registers.
 */
module Panels {
  import opened Options
  import opened Bits
  import opened Frames
  import opened Relays

  const MSG_PING: byte := 0x01
  const MSG_PONG: byte := 0x02
  const MSG_READ_REGISTER: byte := 0x11
  const MSG_WRITE_REGISTER: byte := 0x21
  const MSG_WRITE_REGISTER_BIT: byte := 0x31
  const MSG_PULSE_REGISTER_BIT: byte := 0x41
  const MSG_SUBSCRIBE_REGISTER: byte := 0x51

  const REG_ERR_UNKNOWN: byte := 0x9F
  const REG_INPUT_1: byte := 0xA1
  const REG_OUTPUT_1: byte := 0xD1

  datatype Subscription = Subscription(on: bool, value: bv8)

  datatype Panel = Panel(reg: bv8, input: Subscription, output: Subscription)

  /** A panel after some work, and the messages it sent on the way. */
  datatype Outcome = Outcome(panel: Panel, sent: seq<Msg>)

  /** One poll: the message taken, if any, and the inputs as its handler and as the reporting saw them. */
  datatype Tick = Tick(msg: Option<Msg>, early: bv8, late: bv8)

  function Report(register: byte, value: bv8, cancel: bool): Msg {
    Msg(MSG_SUBSCRIBE_REGISTER, register, value as byte, if cancel then 1 else 0)
  }

  /** What a message makes of the relays: a masked write, or one relay switched; nothing else touches them. */
  function Effect(reg: bv8, m: Msg): bv8 {
    if m.p1 != REG_OUTPUT_1 then reg
    else if m.kind == MSG_WRITE_REGISTER then (reg & !(m.p3 as bv8)) | (m.p2 as bv8 & m.p3 as bv8)
    else if m.kind == MSG_WRITE_REGISTER_BIT && m.p2 < 8 then Switched(reg, m.p2, m.p3 != 0)
    else reg
  }

  /** The relays at each millisecond of the pulse a message asks for: one of them turned over. */
  function Pulse(reg: bv8, m: Msg): seq<bv8> {
    if m.kind == MSG_PULSE_REGISTER_BIT && m.p1 == REG_OUTPUT_1 && m.p2 < 8
    then Steady(m.p3, reg ^ Relay(RelayOfBit(m.p2)))
    else []
  }

  function Steady(n: nat, reg: bv8): (s: seq<bv8>)
    ensures |s| == n && forall i :: 0 <= i < n ==> s[i] == reg
  {
    seq(n, _ => reg)
  }

  function Switched(reg: bv8, bit: nat, state: bool): bv8
    requires bit < 8
  {
    if state then reg | Relay(RelayOfBit(bit)) else reg & !Relay(RelayOfBit(bit))
  }

  function Answer(register: byte, value: bv8): Msg {
    Msg(MSG_WRITE_REGISTER, register, value as byte, 0xFF)
  }

  function ReadReply(reg: bv8, register: byte, inputs: bv8): Msg {
    if register == REG_INPUT_1 then Answer(REG_INPUT_1, inputs)
    else if register == REG_OUTPUT_1 then Answer(REG_OUTPUT_1, reg)
    else Msg(MSG_WRITE_REGISTER, REG_ERR_UNKNOWN, 0, 0xFF)
  }

  function Subscribe(p: Panel, register: byte, cancel: bool, inputs: bv8): Outcome {
    if register == REG_INPUT_1 then
      Outcome(p.(input := Subscription(!cancel, if cancel then 0 else inputs)), [Report(REG_INPUT_1, inputs, cancel)])
    else if register == REG_OUTPUT_1 then
      Outcome(p.(output := Subscription(!cancel, if cancel then 0 else p.reg)), [Report(REG_OUTPUT_1, p.reg, cancel)])
    else
      Outcome(p, [Msg(MSG_SUBSCRIBE_REGISTER, REG_ERR_UNKNOWN, 0, 1)])
  }

  function Handle(p: Panel, m: Msg, inputs: bv8): Outcome {
    if m.kind == MSG_PING then
      Outcome(p, [Msg(MSG_PONG, m.p1, m.p2, m.p3)])
    else if m.kind == MSG_READ_REGISTER then
      Outcome(p, [ReadReply(p.reg, m.p1, inputs)])
    else if m.kind == MSG_SUBSCRIBE_REGISTER then
      Subscribe(p, m.p1, m.p3 != 0, inputs)
    else
      Outcome(p.(reg := Effect(p.reg, m)), [])
  }

  function ReportInput(p: Panel, inputs: bv8): Outcome {
    if p.input.on && inputs != p.input.value then
      Outcome(p.(input := Subscription(true, inputs)), [Report(REG_INPUT_1, inputs, false)])
    else Outcome(p, [])
  }

  function ReportOutput(p: Panel): Outcome {
    if p.output.on && p.reg != p.output.value then
      Outcome(p.(output := Subscription(true, p.reg)), [Report(REG_OUTPUT_1, p.reg, false)])
    else Outcome(p, [])
  }

  function ReportChanges(p: Panel, inputs: bv8): Outcome {
    var first := ReportInput(p, inputs);
    var second := ReportOutput(first.panel);
    Outcome(second.panel, first.sent + second.sent)
  }

  function Handled(p: Panel, t: Tick): Outcome {
    match t.msg
    case None => Outcome(p, [])
    case Some(m) => Handle(p, m, t.early)
  }

  function Poll(p: Panel, t: Tick): Outcome {
    var handled := Handled(p, t);
    var reported := ReportChanges(handled.panel, t.late);
    Outcome(reported.panel, handled.sent + reported.sent)
  }

  /** All relays off, nothing subscribed. */
  const POWER_ON := Panel(0, Subscription(false, 0), Subscription(false, 0))

  /** Everything the proofs below need to know about one message. */
  lemma HandleShape(p: Panel, m: Msg, inputs: bv8)
    ensures var o := Handle(p, m, inputs);
      && |o.sent| <= 1
      && o.panel.reg == Effect(p.reg, m)
      && (o.sent != [] ==> o.panel.reg == p.reg && o.sent[0].kind != MSG_PING)
      && (m.kind == MSG_SUBSCRIBE_REGISTER ==> o == Subscribe(p, m.p1, m.p3 != 0, inputs))
      && (m.kind != MSG_SUBSCRIBE_REGISTER ==> o.panel.input == p.input && o.panel.output == p.output)
      && (m.kind != MSG_SUBSCRIBE_REGISTER && o.sent != [] ==> o.sent[0].kind != MSG_SUBSCRIBE_REGISTER)
  {}

  /** Any number of polls from power-on. */
  function Run(ts: seq<Tick>): Outcome {
    if ts == [] then Outcome(POWER_ON, [])
    else
      var before := Run(ts[..|ts| - 1]);
      var last := Poll(before.panel, ts[|ts| - 1]);
      Outcome(last.panel, before.sent + last.sent)
  }

  /** The messages handled in a run. */
  function Messages(ts: seq<Tick>): seq<Msg> {
    if ts == [] then []
    else Messages(ts[..|ts| - 1]) + Told(ts[|ts| - 1])
  }

  /** What a poll was told: at most one message. */
  function Told(t: Tick): seq<Msg> {
    if t.msg.Some? then [t.msg.value] else []
  }

  // ---------------------------------------------------------------------------
  // The output register
  // ---------------------------------------------------------------------------

  /** The relays after a list of messages, starting with all off. */
  function RegisterAfter(ms: seq<Msg>): bv8 {
    if ms == [] then 0 else Effect(RegisterAfter(ms[..|ms| - 1]), ms[|ms| - 1])
  }

  /** In any run the relays are the fold of the messages handled, and of nothing else: not of the inputs, of
      subscriptions, of pulses, nor of when the polls happened. */
  lemma {:induction false} RegisterFollowsMessages(ts: seq<Tick>)
    ensures Run(ts).panel.reg == RegisterAfter(Messages(ts))
  {
    if ts == [] {
    } else {
      var front, t := ts[..|ts| - 1], ts[|ts| - 1];
      RegisterFollowsMessages(front);
      RegisterInPoll(Run(front).panel, t);
      RegisterTold(Messages(front), t);
    }
  }

  lemma RegisterInPoll(p: Panel, t: Tick)
    ensures Poll(p, t).panel.reg == if t.msg.Some? then Effect(p.reg, t.msg.value) else p.reg
  {
    if t.msg.Some? { HandleShape(p, t.msg.value, t.early); }
  }

  lemma RegisterTold(ms: seq<Msg>, t: Tick)
    ensures (RegisterAfter(ms + Told(t))
      == if t.msg.Some? then Effect(RegisterAfter(ms), t.msg.value) else RegisterAfter(ms))
  {
    if t.msg.Some? {
      RegisterStep(ms, t.msg.value);
    } else {
      assert ms + [] == ms;
    }
  }

  lemma RegisterStep(ms: seq<Msg>, m: Msg)
    ensures RegisterAfter(ms + [m]) == Effect(RegisterAfter(ms), m)
  {
    assert (ms + [m])[..|ms|] == ms;
  }

  // ---------------------------------------------------------------------------
  // Relay by relay. From here on messages bear the numbers they have on the wire.
  // ---------------------------------------------------------------------------

  /** A byte has the bit of relay n. */
  predicate Has(b: byte, n: nat)
    requires 1 <= n <= 8
  {
    On(b as bv8, n)
  }

  /** What a message says about relay n, if anything: a write whose mask has the relay's bit gives it the bit of the
      value; a bit message gives the relay it names its third parameter. */
  function Order(m: Msg, n: nat): Option<bool>
    requires 1 <= n <= 8
  {
    if m.p1 != 0xD1 then None
    else if m.kind == 0x21 then if Has(m.p3, n) then Some(Has(m.p2, n)) else None
    else if m.kind == 0x31 && n == (if m.p2 == 0 then 5 else m.p2) && m.p2 < 8 then Some(m.p3 != 0)
    else None
  }

  /** Relay n as a message leaves it. */
  predicate Ordered(was: bool, m: Msg, n: nat)
    requires 1 <= n <= 8
  {
    if Order(m, n).Some? then Order(m, n).value else was
  }

  /** A bit message puts its own relay in the state it gives and leaves the others as they were. */
  lemma BitCommand(p: Panel, b: byte, v: byte, inputs: bv8, n: nat)
    requires b < 8 && 1 <= n <= 8
    ensures On(Handle(p, Msg(0x31, 0xD1, b, v), inputs).panel.reg, n)
      <==> if n == (if b == 0 then 5 else b) then v != 0 else On(p.reg, n)
  {
    RelaysAreSingle(RelayOfBit(b), n);
    OneBitMoved(p.reg, Relay(RelayOfBit(b)), Relay(n));
    BitHandled(p, b, v, inputs);
  }

  lemma BitHandled(p: Panel, b: byte, v: byte, inputs: bv8)
    requires b < 8
    ensures var bit := Relay(RelayOfBit(b));
      Handle(p, Msg(0x31, 0xD1, b, v), inputs).panel.reg == if v != 0 then p.reg | bit else p.reg & !bit
  {}

  /** A write puts the relays in its mask in the state its value gives and leaves the others as they were. */
  lemma WriteCommand(p: Panel, v: byte, mask: byte, inputs: bv8, n: nat)
    requires 1 <= n <= 8
    ensures On(Handle(p, Msg(0x21, 0xD1, v, mask), inputs).panel.reg, n)
      <==> if Has(mask, n) then Has(v, n) else On(p.reg, n)
  {
    RelaysAreSingle(n, n);
    MaskedBit(p.reg, v as bv8, mask as bv8, Relay(n));
    WriteHandled(p, v, mask, inputs);
  }

  lemma WriteHandled(p: Panel, v: byte, mask: byte, inputs: bv8)
    ensures Handle(p, Msg(0x21, 0xD1, v, mask), inputs).panel.reg
      == (p.reg & !(mask as bv8)) | (v as bv8 & mask as bv8)
  {}

  /** Every message does to every relay what it orders. */
  lemma OrderIsObeyed(p: Panel, m: Msg, inputs: bv8, n: nat)
    requires 1 <= n <= 8
    ensures On(Handle(p, m, inputs).panel.reg, n) <==> Ordered(On(p.reg, n), m, n)
  {
    if m.kind == 0x31 && m.p1 == 0xD1 && m.p2 < 8 {
      BitCommand(p, m.p2, m.p3, inputs, n);
      assert m == Msg(0x31, 0xD1, m.p2, m.p3);
    } else if m.kind == 0x21 && m.p1 == 0xD1 {
      WriteCommand(p, m.p2, m.p3, inputs, n);
      assert m == Msg(0x21, 0xD1, m.p2, m.p3);
    }
  }

  /** What the last message with an order for relay n said; off if there was none. */
  predicate LastOrder(ms: seq<Msg>, n: nat)
    requires 1 <= n <= 8
  {
    ms != [] && Ordered(LastOrder(ms[..|ms| - 1], n), ms[|ms| - 1], n)
  }

  /** In any run a relay is on exactly if the last message with an order for it said so. */
  lemma {:induction false} LastOrderHolds(ms: seq<Msg>, n: nat)
    requires 1 <= n <= 8
    ensures On(RegisterAfter(ms), n) <==> LastOrder(ms, n)
  {
    if ms == [] {
    } else {
      var front, m := ms[..|ms| - 1], ms[|ms| - 1];
      var p := Panel(RegisterAfter(front), Subscription(false, 0), Subscription(false, 0));
      LastOrderHolds(front, n);
      HandleShape(p, m, 0);
      OrderIsObeyed(p, m, 0, n);
    }
  }

  // ---------------------------------------------------------------------------
  // Pulses
  // ---------------------------------------------------------------------------

  /** The relays at each millisecond of all the pulses a list of messages asks for. */
  function Pulsed(ms: seq<Msg>): seq<bv8> {
    if ms == [] then []
    else
      var front := ms[..|ms| - 1];
      Pulsed(front) + Pulse(RegisterAfter(front), ms[|ms| - 1])
  }

  /** What a poll adds. */
  function PulseTold(reg: bv8, t: Tick): seq<bv8> {
    if t.msg.Some? then Pulse(reg, t.msg.value) else []
  }

  /** A pulse message turns over just the relay it names, for as many milliseconds as it says; no other message
      turns over anything. */
  lemma PulseTurnsOne(reg: bv8, m: Msg, i: nat, n: nat)
    requires 1 <= n <= 8
    ensures |Pulse(reg, m)| == if m.kind == 0x41 && m.p1 == 0xD1 && m.p2 < 8 then m.p3 else 0
    ensures i < |Pulse(reg, m)| ==>
      (On(Pulse(reg, m)[i], n) <==> On(reg, n) != (n == if m.p2 == 0 then 5 else m.p2))
  {
    if i < |Pulse(reg, m)| { TurnedBit(reg, RelayOfBit(m.p2), n); }
  }

  lemma TurnedBit(reg: bv8, k: nat, n: nat)
    requires 1 <= k <= 8 && 1 <= n <= 8
    ensures On(reg ^ Relay(k), n) <==> On(reg, n) != (n == k)
  {
    RelaysAreSingle(k, n);
    OneBitMoved(reg, Relay(k), Relay(n));
  }

  lemma PulsedMore(ts: seq<Tick>, t: Tick)
    ensures Pulsed(Messages(ts) + Told(t)) == Pulsed(Messages(ts)) + PulseTold(Run(ts).panel.reg, t)
  {
    var ms := Messages(ts);
    RegisterFollowsMessages(ts);
    if t.msg.Some? {
      assert (ms + [t.msg.value])[..|ms|] == ms;
    } else {
      assert ms + [] == ms && Pulsed(ms) + [] == Pulsed(ms);
    }
  }

  // ---------------------------------------------------------------------------
  // Answers
  // ---------------------------------------------------------------------------

  /** A byte carries the bits of a register. */
  predicate Carries(b: byte, reg: bv8) {
    forall n :: 1 <= n <= 8 ==> (Has(b, n) <==> On(reg, n))
  }

  lemma CarriesItself(reg: bv8)
    ensures Carries(reg as byte, reg)
  {
    assert (reg as byte) as bv8 == reg;
  }

  lemma PingIsEchoed(p: Panel, a: byte, b: byte, c: byte, inputs: bv8)
    ensures Handle(p, Msg(0x01, a, b, c), inputs) == Outcome(p, [Msg(0x02, a, b, c)])
  {}

  /** A read is answered by a write to the same register with all its bits, the inputs as the handler found them; a
      register the board does not have by one to the error register. */
  lemma ReadIsAnswered(p: Panel, register: byte, a: byte, b: byte, inputs: bv8)
    ensures var o := Handle(p, Msg(0x11, register, a, b), inputs);
      && o.panel == p && |o.sent| == 1 && o.sent[0].kind == 0x21 && o.sent[0].p3 == 0xFF
      && (register == 0xA1 ==> o.sent[0].p1 == 0xA1 && Carries(o.sent[0].p2, inputs))
      && (register == 0xD1 ==> o.sent[0].p1 == 0xD1 && Carries(o.sent[0].p2, p.reg))
      && (register != 0xA1 && register != 0xD1 ==> o.sent[0].p1 == 0x9F && o.sent[0].p2 == 0)
  {
    CarriesItself(inputs);
    CarriesItself(p.reg);
  }

  /** In a poll that takes such a message the answer comes first, and the inputs in it are those of the handler's time,
      not of the reporting after it. */
  lemma ReadInPoll(p: Panel, t: Tick)
    requires t.msg.Some? && t.msg.value.kind == 0x11 && t.msg.value.p1 == 0xA1
    ensures var sent := Poll(p, t).sent;
      sent != [] && sent[0].kind == 0x21 && sent[0].p1 == 0xA1 && Carries(sent[0].p2, t.early)
  {
    ReadIsAnswered(p, 0xA1, t.msg.value.p2, t.msg.value.p3, t.early);
    assert t.msg.value == Msg(0x11, 0xA1, t.msg.value.p2, t.msg.value.p3);
  }

  /** A subscription, or its cancellation, is answered in kind, with all the bits the register has at the time and
      whether it is a cancellation, and leaves the other subscription alone. */
  lemma SubscribeIsAnswered(p: Panel, register: byte, a: byte, cancel: byte, inputs: bv8)
    requires register == 0xA1 || register == 0xD1
    ensures var o, off := Handle(p, Msg(0x51, register, a, cancel), inputs), if cancel != 0 then 1 else 0;
      && |o.sent| == 1 && o.sent[0] == Msg(0x51, register, o.sent[0].p2, off)
      && Carries(o.sent[0].p2, if register == 0xA1 then inputs else p.reg)
      && o.panel.reg == p.reg && (if register == 0xA1 then o.panel.output == p.output else o.panel.input == p.input)
  {
    CarriesItself(if register == 0xA1 then inputs else p.reg);
  }

  /** On a register the board does not have it is answered by a cancellation on the error register. */
  lemma SubscribeElsewhere(p: Panel, register: byte, a: byte, cancel: byte, inputs: bv8)
    requires register != 0xA1 && register != 0xD1
    ensures Handle(p, Msg(0x51, register, a, cancel), inputs) == Outcome(p, [Msg(0x51, 0x9F, 0, 1)])
  {}

  /** No other message is answered, and none but those that move relays changes anything. */
  lemma OthersAreSilent(p: Panel, m: Msg, inputs: bv8)
    requires m.kind != 0x01 && m.kind != 0x11 && m.kind != 0x51
    ensures var o := Handle(p, m, inputs);
      && o.sent == [] && o.panel.input == p.input && o.panel.output == p.output
      && (m.kind != 0x21 && m.kind != 0x31 ==> o.panel == p)
  {}

  /** The answer to a read is itself a write message: handled by another board it copies the relays over. */
  lemma ReadCopiesRelays(p: Panel, q: Panel, inputs: bv8, pins: bv8)
    ensures var answer := Handle(p, Msg(MSG_READ_REGISTER, REG_OUTPUT_1, 0, 0), inputs);
      && answer.panel == p && |answer.sent| == 1
      && Handle(q, answer.sent[0], pins) == Outcome(q.(reg := p.reg), [])
  {
    assert (p.reg as byte) as bv8 == p.reg;
    assert (q.reg & !0xFF) | (p.reg & 0xFF) == p.reg;
  }

  // ---------------------------------------------------------------------------
  // Subscriptions
  // ---------------------------------------------------------------------------

  /** The value most recently sent as a standing (not cancelled) report on a register; none once cancelled. */
  function LastReport(sent: seq<Msg>, register: byte): Option<byte> {
    if sent == [] then None
    else
      var m := sent[|sent| - 1];
      if m.kind == MSG_SUBSCRIBE_REGISTER && m.p1 == register then if m.p3 == 0 then Some(m.p2) else None
      else LastReport(sent[..|sent| - 1], register)
  }

  /** Whether the last subscribe message on a register asked for reports. */
  predicate Wanted(ms: seq<Msg>, register: byte) {
    if ms == [] then false
    else
      var m := ms[|ms| - 1];
      if m.kind == MSG_SUBSCRIBE_REGISTER && m.p1 == register then m.p3 == 0
      else Wanted(ms[..|ms| - 1], register)
  }

  /** What the host was last told about a register is what the subscription remembers. */
  predicate Agrees(s: Subscription, register: byte, sent: seq<Msg>) {
    LastReport(sent, register) == if s.on then Some(s.value as byte) else None
  }

  lemma LastReportOfAppended(sent: seq<Msg>, m: Msg, register: byte)
    ensures LastReport(sent + [m], register) ==
      if m.kind == MSG_SUBSCRIBE_REGISTER && m.p1 == register then if m.p3 == 0 then Some(m.p2) else None
      else LastReport(sent, register)
  {
    assert (sent + [m])[..|sent|] == sent;
  }

  lemma HandleAgrees(p: Panel, m: Msg, inputs: bv8, sent: seq<Msg>)
    requires Agrees(p.input, REG_INPUT_1, sent) && Agrees(p.output, REG_OUTPUT_1, sent)
    ensures var o := Handle(p, m, inputs);
      Agrees(o.panel.input, REG_INPUT_1, sent + o.sent) && Agrees(o.panel.output, REG_OUTPUT_1, sent + o.sent)
  {
    HandleShape(p, m, inputs);
    var o := Handle(p, m, inputs);
    if m.kind == MSG_SUBSCRIBE_REGISTER {
      SubscribeAgrees(p, m.p1, m.p3 != 0, inputs, sent);
    } else if o.sent == [] {
      assert sent + o.sent == sent;
    } else {
      assert o.sent == [o.sent[0]];
      LastReportOfAppended(sent, o.sent[0], REG_INPUT_1);
      LastReportOfAppended(sent, o.sent[0], REG_OUTPUT_1);
    }
  }

  lemma SubscribeAgrees(p: Panel, register: byte, cancel: bool, inputs: bv8, sent: seq<Msg>)
    requires Agrees(p.input, REG_INPUT_1, sent) && Agrees(p.output, REG_OUTPUT_1, sent)
    ensures var o := Subscribe(p, register, cancel, inputs);
      Agrees(o.panel.input, REG_INPUT_1, sent + o.sent) && Agrees(o.panel.output, REG_OUTPUT_1, sent + o.sent)
  {
    var value := if register == REG_INPUT_1 then inputs else if register == REG_OUTPUT_1 then p.reg else 0;
    var m := if register == REG_INPUT_1 || register == REG_OUTPUT_1 then Report(register, value, cancel)
             else Msg(MSG_SUBSCRIBE_REGISTER, REG_ERR_UNKNOWN, 0, 1);
    assert Subscribe(p, register, cancel, inputs).sent == [m];
    LastReportOfAppended(sent, m, REG_INPUT_1);
    LastReportOfAppended(sent, m, REG_OUTPUT_1);
  }

  lemma ReportAgrees(p: Panel, inputs: bv8, sent: seq<Msg>)
    requires Agrees(p.input, REG_INPUT_1, sent) && Agrees(p.output, REG_OUTPUT_1, sent)
    ensures var o := ReportChanges(p, inputs);
      && Agrees(o.panel.input, REG_INPUT_1, sent + o.sent) && Agrees(o.panel.output, REG_OUTPUT_1, sent + o.sent)
      && (o.panel.input.on ==> o.panel.input.value == inputs)
      && (o.panel.output.on ==> o.panel.output.value == p.reg)
  {
    var first := ReportInput(p, inputs);
    ReportInputAgrees(p, inputs, sent);
    ReportOutputAgrees(first.panel, sent + first.sent);
    assert sent + (first.sent + ReportOutput(first.panel).sent) == sent + first.sent + ReportOutput(first.panel).sent;
  }

  lemma ReportInputAgrees(p: Panel, inputs: bv8, sent: seq<Msg>)
    requires Agrees(p.input, REG_INPUT_1, sent) && Agrees(p.output, REG_OUTPUT_1, sent)
    ensures var o := ReportInput(p, inputs);
      && Agrees(o.panel.input, REG_INPUT_1, sent + o.sent) && Agrees(o.panel.output, REG_OUTPUT_1, sent + o.sent)
      && (o.panel.input.on ==> o.panel.input.value == inputs) && o.panel.reg == p.reg && o.panel.output == p.output
  {
    LastReportOfAppended(sent, Report(REG_INPUT_1, inputs, false), REG_INPUT_1);
    LastReportOfAppended(sent, Report(REG_INPUT_1, inputs, false), REG_OUTPUT_1);
    assert sent + [] == sent;
  }

  lemma ReportOutputAgrees(p: Panel, sent: seq<Msg>)
    requires Agrees(p.input, REG_INPUT_1, sent) && Agrees(p.output, REG_OUTPUT_1, sent)
    ensures var o := ReportOutput(p);
      && Agrees(o.panel.input, REG_INPUT_1, sent + o.sent) && Agrees(o.panel.output, REG_OUTPUT_1, sent + o.sent)
      && (o.panel.output.on ==> o.panel.output.value == p.reg) && o.panel.reg == p.reg && o.panel.input == p.input
  {
    LastReportOfAppended(sent, Report(REG_OUTPUT_1, p.reg, false), REG_INPUT_1);
    LastReportOfAppended(sent, Report(REG_OUTPUT_1, p.reg, false), REG_OUTPUT_1);
    assert sent + [] == sent;
  }

  /** At the end of every poll of every run, whatever the host subscribed to it has been told correctly: the relays as
      they are, the inputs as the poll saw them; and it has a standing report exactly while it wants one. */
  lemma {:induction false} ReportsAreCurrent(ts: seq<Tick>)
    ensures var p, sent := Run(ts).panel, Run(ts).sent;
      && LastReport(sent, REG_OUTPUT_1) == (if Wanted(Messages(ts), REG_OUTPUT_1) then Some(p.reg as byte) else None)
      && (ts != [] ==>
            LastReport(sent, REG_INPUT_1)
            == (if Wanted(Messages(ts), REG_INPUT_1) then Some(ts[|ts| - 1].late as byte) else None))
  {
    SubscriptionsInRun(ts);
  }

  /** What holds between polls. */
  predicate Current(o: Outcome, ms: seq<Msg>) {
    && Agrees(o.panel.input, REG_INPUT_1, o.sent) && Agrees(o.panel.output, REG_OUTPUT_1, o.sent)
    && (o.panel.output.on ==> o.panel.output.value == o.panel.reg)
    && o.panel.input.on == Wanted(ms, REG_INPUT_1) && o.panel.output.on == Wanted(ms, REG_OUTPUT_1)
  }

  lemma {:induction false} SubscriptionsInRun(ts: seq<Tick>)
    ensures Current(Run(ts), Messages(ts))
    ensures ts != [] && Run(ts).panel.input.on ==> Run(ts).panel.input.value == ts[|ts| - 1].late
  {
    if ts == [] {
    } else {
      var front, t := ts[..|ts| - 1], ts[|ts| - 1];
      SubscriptionsInRun(front);
      PollCurrent(Run(front), Messages(front), t);
    }
  }

  lemma PollCurrent(o: Outcome, ms: seq<Msg>, t: Tick)
    requires Current(o, ms)
    ensures var q := Poll(o.panel, t);
      && Current(Outcome(q.panel, o.sent + q.sent), ms + Told(t))
      && (q.panel.input.on ==> q.panel.input.value == t.late)
  {
    var h := Handled(o.panel, t);
    TickHandled(o, ms, t);
    ReportCurrent(Outcome(h.panel, o.sent + h.sent), ms + Told(t), t.late);
    PollParts(o, t, h, ReportChanges(h.panel, t.late));
  }

  lemma PollParts(o: Outcome, t: Tick, h: Outcome, r: Outcome)
    requires h == Handled(o.panel, t) && r == ReportChanges(h.panel, t.late)
    ensures var q := Poll(o.panel, t);
      Outcome(q.panel, o.sent + q.sent) == Outcome(r.panel, o.sent + h.sent + r.sent)
  {
    assert o.sent + (h.sent + r.sent) == o.sent + h.sent + r.sent;
  }

  lemma TickHandled(o: Outcome, ms: seq<Msg>, t: Tick)
    requires Current(o, ms)
    ensures var h := Handled(o.panel, t);
      && Agrees(h.panel.input, REG_INPUT_1, o.sent + h.sent) && Agrees(h.panel.output, REG_OUTPUT_1, o.sent + h.sent)
      && h.panel.input.on == Wanted(ms + Told(t), REG_INPUT_1)
      && h.panel.output.on == Wanted(ms + Told(t), REG_OUTPUT_1)
  {
    if t.msg.Some? {
      HandledCurrent(o, ms, t.msg.value, t.early);
    } else {
      assert o.sent + [] == o.sent && ms + [] == ms;
    }
  }

  lemma ReportCurrent(o: Outcome, ms: seq<Msg>, inputs: bv8)
    requires Agrees(o.panel.input, REG_INPUT_1, o.sent) && Agrees(o.panel.output, REG_OUTPUT_1, o.sent)
    requires o.panel.input.on == Wanted(ms, REG_INPUT_1) && o.panel.output.on == Wanted(ms, REG_OUTPUT_1)
    ensures var r := ReportChanges(o.panel, inputs);
      && Current(Outcome(r.panel, o.sent + r.sent), ms)
      && (r.panel.input.on ==> r.panel.input.value == inputs)
  {
    ReportAgrees(o.panel, inputs, o.sent);
  }

  /** After the message and before the reporting, only the freshness of the output report may be missing. */
  lemma HandledCurrent(o: Outcome, ms: seq<Msg>, m: Msg, inputs: bv8)
    requires Current(o, ms)
    ensures var h := Handle(o.panel, m, inputs);
      && Agrees(h.panel.input, REG_INPUT_1, o.sent + h.sent) && Agrees(h.panel.output, REG_OUTPUT_1, o.sent + h.sent)
      && h.panel.input.on == Wanted(ms + [m], REG_INPUT_1) && h.panel.output.on == Wanted(ms + [m], REG_OUTPUT_1)
  {
    HandleAgrees(o.panel, m, inputs, o.sent);
    HandledWanted(o.panel, ms, m, inputs);
  }

  lemma HandledWanted(p: Panel, ms: seq<Msg>, m: Msg, inputs: bv8)
    requires p.input.on == Wanted(ms, REG_INPUT_1) && p.output.on == Wanted(ms, REG_OUTPUT_1)
    ensures var h := Handle(p, m, inputs);
      h.panel.input.on == Wanted(ms + [m], REG_INPUT_1) && h.panel.output.on == Wanted(ms + [m], REG_OUTPUT_1)
  {
    HandleShape(p, m, inputs);
    WantedAfter(ms, m, REG_INPUT_1);
    WantedAfter(ms, m, REG_OUTPUT_1);
  }

  lemma WantedAfter(ms: seq<Msg>, m: Msg, register: byte)
    ensures Wanted(ms + [m], register)
      == if m.kind == MSG_SUBSCRIBE_REGISTER && m.p1 == register then m.p3 == 0 else Wanted(ms, register)
  {
    assert (ms + [m])[..|ms|] == ms;
  }

  // ---------------------------------------------------------------------------
  // Traffic
  // ---------------------------------------------------------------------------

  /** The polls in which a subscribed input was found different from what had last been reported. */
  function InputChanges(ts: seq<Tick>): nat {
    if ts == [] then 0
    else
      var front, t := ts[..|ts| - 1], ts[|ts| - 1];
      var input := Handled(Run(front).panel, t).panel.input;
      InputChanges(front) + if input.on && t.late != input.value then 1 else 0
  }

  /** A poll sends at most one message for the message it took and one for a changed input: a message that moves
      the relays is answered by no reply, only by the report of the move. */
  lemma PollTraffic(p: Panel, t: Tick)
    requires p.output.on ==> p.output.value == p.reg
    ensures var input := Handled(p, t).panel.input;
      |Poll(p, t).sent| <= (if t.msg.Some? then 1 else 0) + (if input.on && t.late != input.value then 1 else 0)
    ensures forall m :: m in Poll(p, t).sent ==> m.kind != MSG_PING
  {
    var h := Handled(p, t);
    if t.msg.Some? { HandledFresh(p, t.msg.value, t.early); }
    ReportTraffic(h, t.late, if t.msg.Some? then 1 else 0);
  }

  lemma ReportTraffic(h: Outcome, late: bv8, told: nat)
    requires |h.sent| <= told <= 1 && (forall m :: m in h.sent ==> m.kind != MSG_PING)
    requires told == |h.sent| ==> h.panel.output.on ==> h.panel.output.value == h.panel.reg
    ensures var all := h.sent + ReportChanges(h.panel, late).sent;
      && |all| <= told + (if h.panel.input.on && late != h.panel.input.value then 1 else 0)
      && (forall m :: m in all ==> m.kind != MSG_PING)
  {
    ReportSize(h.panel, late);
  }

  /** A message that is answered leaves the output report up to date. */
  lemma HandledFresh(p: Panel, m: Msg, inputs: bv8)
    requires p.output.on ==> p.output.value == p.reg
    ensures var o := Handle(p, m, inputs);
      && |o.sent| <= 1
      && (o.sent != [] ==> o.sent[0].kind != MSG_PING && (o.panel.output.on ==> o.panel.output.value == o.panel.reg))
  {
    HandleShape(p, m, inputs);
  }

  /** What a poll reports on its own account: the inputs first, then the relays, each only if subscribed to and changed,
      with the bits it has now and as a standing report. */
  lemma ReportsInOrder(p: Panel, inputs: bv8)
    ensures ReportChanges(p, inputs).sent
      == (if p.input.on && inputs != p.input.value then [Msg(0x51, 0xA1, inputs as byte, 0)] else [])
       + (if p.output.on && p.reg != p.output.value then [Msg(0x51, 0xD1, p.reg as byte, 0)] else [])
  {}

  lemma ReportSize(p: Panel, inputs: bv8)
    ensures |ReportChanges(p, inputs).sent|
      == (if p.input.on && inputs != p.input.value then 1 else 0)
       + (if p.output.on && p.reg != p.output.value then 1 else 0)
    ensures forall m :: m in ReportChanges(p, inputs).sent ==> m.kind != MSG_PING
  {}

  /** The device never has more to say than it was told: one message for each message handled and for each poll with
      a changed input. It never pings, and so never draws a reply out of the host. */
  lemma {:induction false} TrafficIsBounded(ts: seq<Tick>)
    ensures |Run(ts).sent| <= |Messages(ts)| + InputChanges(ts)
    ensures forall m :: m in Run(ts).sent ==> m.kind != MSG_PING
  {
    if ts == [] {
    } else {
      var front := ts[..|ts| - 1];
      TrafficIsBounded(front);
      SubscriptionsInRun(front);
      PollTraffic(Run(front).panel, ts[|ts| - 1]);
    }
  }
}
