/**
 One end of the serial link over a whole run. The run is a history of bytes taken in and of
 frames sent out, in the order in which they pass through the one 14-byte ring that serves
 both directions. A window is delivered whenever a byte taken in completes an accepted one.
 */
module Link {
  import opened Bits
  import opened Rings
  import opened Frames

  /** How frames are built and recognised. Everything below holds for any codec whose frames fill the ring exactly
      and open with a character found nowhere else in them; WireCodec is the one the link uses. */
  datatype Codec = Codec(accepts: seq<byte> -> bool, frame: Msg -> seq<byte>, value: seq<byte> -> Msg)

  ghost predicate WellFramed(c: Codec) {
    && (forall w :: GoodWindow(c, w))
    && (forall m :: GoodFrame(c, m))
  }

  predicate GoodWindow(c: Codec, w: seq<byte>) {
    c.accepts(w) ==> |w| == FRAME_LENGTH && w[0] == BEGIN
  }

  predicate GoodFrame(c: Codec, m: Msg) {
    FrameShape(c.frame(m)) && c.accepts(c.frame(m)) && c.value(c.frame(m)) == m
  }

  predicate FrameShape(w: seq<byte>) {
    |w| == FRAME_LENGTH && w[0] == BEGIN && forall i :: 1 <= i < FRAME_LENGTH ==> w[i] != BEGIN
  }

  function WireCodec(): Codec {
    Codec(w => |w| == FRAME_LENGTH && Check(w) == Ok, m => Frame(m),
          w => if |w| == FRAME_LENGTH then Values(w) else Msg(0, 0, 0, 0))
  }

  /** A codec that behaves as the wire's: well framed, it accepts what Check accepts, reads what Values reads and
      builds what Frame builds. */
  ghost predicate Wired(c: Codec) {
    && WellFramed(c)
    && (forall w :: ChecksWindow(c, w))
    && (forall m :: BuildsFrame(c, m))
  }

  predicate ChecksWindow(c: Codec, w: seq<byte>) {
    && (c.accepts(w) <==> |w| == FRAME_LENGTH && Check(w) == Ok)
    && (c.accepts(w) ==> c.value(w) == Values(w))
  }

  predicate BuildsFrame(c: Codec, m: Msg) {
    c.frame(m) == Frame(m)
  }

  lemma WireIsWired()
    ensures Wired(WireCodec())
  {
    var c := WireCodec();
    forall m
      ensures GoodFrame(c, m)
    {
      FrameRoundTrip(m);
    }
  }

  datatype Event = Got(b: byte) | Sent(m: Msg)
  type History = seq<Event>

  function BytesOf(c: Codec, e: Event): seq<byte> {
    match e
    case Got(b) => [b]
    case Sent(m) => c.frame(m)
  }

  /** Every byte that has passed through the ring. */
  function Bytes(c: Codec, h: History): seq<byte> {
    if h == [] then [] else Bytes(c, h[..|h| - 1]) + BytesOf(c, h[|h| - 1])
  }

  /** What the ring holds. */
  function Window(c: Codec, h: History): seq<byte> {
    Keep(Bytes(c, h), FRAME_LENGTH)
  }

  function Delivery(c: Codec, e: Event, w: seq<byte>): seq<seq<byte>> {
    if e.Got? && c.accepts(w) then [w] else []
  }

  /** The windows handed over so far: those accepted as a byte taken in completed them. */
  function Deliveries(c: Codec, h: History): seq<seq<byte>> {
    if h == [] then [] else Deliveries(c, h[..|h| - 1]) + Delivery(c, h[|h| - 1], Window(c, h))
  }

  /** The bytes taken in since the last frame went out. */
  function Since(h: History): seq<byte> {
    if h == [] || h[|h| - 1].Sent? then [] else Since(h[..|h| - 1]) + [h[|h| - 1].b]
  }

  function Received(h: History): seq<byte> {
    if h == [] then []
    else Received(h[..|h| - 1]) + if h[|h| - 1].Got? then [h[|h| - 1].b] else []
  }

  function SentIn(h: History): seq<Msg> {
    if h == [] then []
    else SentIn(h[..|h| - 1]) + if h[|h| - 1].Sent? then [h[|h| - 1].m] else []
  }

  function Gots(s: seq<byte>): (h: History)
    ensures |h| == |s| && forall i :: 0 <= i < |s| ==> h[i] == Got(s[i])
  {
    seq(|s|, i requires 0 <= i < |s| => Got(s[i]))
  }

  // ---------------------------------------------------------------------------
  // Sharing one ring between the two directions
  // ---------------------------------------------------------------------------

  /** The last frame sent, followed by everything taken in after it. */
  function Tail(c: Codec, h: History): seq<byte> {
    if h == [] then [] else if h[|h| - 1].Sent? then c.frame(h[|h| - 1].m) else Tail(c, h[..|h| - 1]) + [h[|h| - 1].b]
  }

  lemma {:induction false} WindowOfTail(c: Codec, h: History)
    requires WellFramed(c)
    ensures Window(c, h) == Keep(Tail(c, h), FRAME_LENGTH)
  {
    if h == [] {
    } else {
      var g, e := h[..|h| - 1], h[|h| - 1];
      WindowOfTail(c, g);
      if e.Sent? { assert GoodFrame(c, e.m); }
      KeepTwice(Bytes(c, g), BytesOf(c, e), FRAME_LENGTH);
      KeepTwice(Tail(c, g), BytesOf(c, e), FRAME_LENGTH);
    }
  }

  /** The tail is what came in since the last sending, behind the frame sent then, if any. */
  lemma {:induction false} TailShape(c: Codec, h: History)
    requires WellFramed(c)
    ensures |Tail(c, h)| - |Since(h)| == 0 || |Tail(c, h)| - |Since(h)| == FRAME_LENGTH
    ensures Tail(c, h)[|Tail(c, h)| - |Since(h)|..] == Since(h)
    ensures forall i :: 1 <= i < |Tail(c, h)| - |Since(h)| ==> Tail(c, h)[i] != BEGIN
  {
    if h == [] {
    } else {
      var e := h[|h| - 1];
      if e.Got? { TailShape(c, h[..|h| - 1]); } else { assert GoodFrame(c, e.m); }
    }
  }

  /** A window that still reaches back into a sent frame is never accepted: the frame fills the ring exactly and
      has its opening bracket in front only. So an accepted window holds received bytes alone. */
  lemma AcceptedWindowIsReceived(c: Codec, h: History)
    requires WellFramed(c)
    requires h != [] && h[|h| - 1].Got?
    ensures c.accepts(Window(c, h)) <==> c.accepts(Keep(Since(h), FRAME_LENGTH))
    ensures c.accepts(Window(c, h)) ==> |Since(h)| >= FRAME_LENGTH && Window(c, h) == Keep(Since(h), FRAME_LENGTH)
  {
    WindowOfTail(c, h);
    TailShape(c, h);
    var t, s := Tail(c, h), Since(h);
    assert GoodWindow(c, Window(c, h)) && GoodWindow(c, Keep(s, FRAME_LENGTH));
    if |s| >= FRAME_LENGTH {
      assert t[|t| - FRAME_LENGTH..] == s[|s| - FRAME_LENGTH..];
    } else if |t| >= FRAME_LENGTH {
      assert Window(c, h)[0] == t[|s|];
    }
  }

  /** The same receiver with a ring of its own that is emptied at every sending. */
  function PrivateDeliveries(c: Codec, h: History): seq<seq<byte>> {
    if h == [] then []
    else PrivateDeliveries(c, h[..|h| - 1]) + Delivery(c, h[|h| - 1], Keep(Since(h), FRAME_LENGTH))
  }

  /** Sharing the ring with the sender cannot be told from the outside: what is delivered is what a private
      ring, emptied at every sending, would deliver. The contents of the frames sent play no part. */
  lemma {:induction false} SharingIsHarmless(c: Codec, h: History)
    requires WellFramed(c)
    ensures Deliveries(c, h) == PrivateDeliveries(c, h)
  {
    if h == [] {
    } else {
      SharingIsHarmless(c, h[..|h| - 1]);
      if h[|h| - 1].Got? { AcceptedWindowIsReceived(c, h); }
    }
  }

  lemma {:induction false} SinceAfterSending(a: History, m: Msg, b: History)
    ensures Since(a + [Sent(m)] + b) == Since(b)
    decreases |b|
  {
    var h := a + [Sent(m)] + b;
    if b == [] {
    } else {
      assert h[..|h| - 1] == a + [Sent(m)] + b[..|b| - 1];
      SinceAfterSending(a, m, b[..|b| - 1]);
    }
  }

  lemma PrivateStep(c: Codec, h: History, e: Event)
    ensures PrivateDeliveries(c, h + [e])
      == PrivateDeliveries(c, h) + Delivery(c, e, Keep(Since(h + [e]), FRAME_LENGTH))
  {
    assert (h + [e])[..|h|] == h;
  }

  lemma {:induction false} PrivateSplit(c: Codec, a: History, m: Msg, b: History)
    ensures PrivateDeliveries(c, a + [Sent(m)] + b) == PrivateDeliveries(c, a) + PrivateDeliveries(c, b)
    decreases |b|
  {
    if b == [] {
      PrivateStep(c, a, Sent(m));
      assert a + [Sent(m)] + b == a + [Sent(m)];
    } else {
      var d, e := b[..|b| - 1], b[|b| - 1];
      PrivateSplit(c, a, m, d);
      assert b == d + [e];
      PrivateSplitStep(c, a, m, d, e);
    }
  }

  lemma PrivateSplitStep(c: Codec, a: History, m: Msg, d: History, e: Event)
    requires PrivateDeliveries(c, a + [Sent(m)] + d) == PrivateDeliveries(c, a) + PrivateDeliveries(c, d)
    ensures PrivateDeliveries(c, a + [Sent(m)] + (d + [e])) == PrivateDeliveries(c, a) + PrivateDeliveries(c, d + [e])
  {
    SinceAfterSending(a, m, d + [e]);
    assert a + [Sent(m)] + (d + [e]) == a + [Sent(m)] + d + [e];
    PrivateSteps(c, a + [Sent(m)] + d, d, e, PrivateDeliveries(c, a));
  }

  /** Two runs whose next event is the same, and leaves the same bytes since the last sending, grow alike. */
  lemma PrivateSteps(c: Codec, g: History, d: History, e: Event, before: seq<seq<byte>>)
    requires PrivateDeliveries(c, g) == before + PrivateDeliveries(c, d)
    requires Since(g + [e]) == Since(d + [e])
    ensures PrivateDeliveries(c, g + [e]) == before + PrivateDeliveries(c, d + [e])
  {
    PrivateStep(c, g, e);
    PrivateStep(c, d, e);
  }

  /** A sending cuts the run in two: the halves deliver what each would deliver alone, whatever was sent. */
  lemma SendingSplitsTheRun(c: Codec, a: History, m: Msg, b: History)
    requires WellFramed(c)
    ensures Deliveries(c, a + [Sent(m)] + b) == Deliveries(c, a) + Deliveries(c, b)
  {
    SharingIsHarmless(c, a + [Sent(m)] + b);
    SharingIsHarmless(c, a);
    SharingIsHarmless(c, b);
    PrivateSplit(c, a, m, b);
  }

  /** One more byte delivers something exactly when the last fourteen events are all bytes taken in and
      spell an accepted window; it then delivers just that window. */
  lemma DeliveryExactly(c: Codec, h: History, b: byte)
    requires WellFramed(c)
    ensures var k := h + [Got(b)];
      Deliveries(c, k) == Deliveries(c, h)
        + if |h| >= 13 && c.accepts(Received(k[|h| - 13..])) then [Received(k[|h| - 13..])] else []
  {
    GotDelivery(c, h, b);
    var k := h + [Got(b)];
    assert GoodWindow(c, Keep(Since(k), FRAME_LENGTH));
    LastFourteen(k);
    if |h| >= 13 { assert GoodWindow(c, Received(k[|h| - 13..])); }
  }

  /** What one more byte delivers, seen through the private ring. */
  lemma GotDelivery(c: Codec, h: History, b: byte)
    requires WellFramed(c)
    ensures Deliveries(c, h + [Got(b)]) == Deliveries(c, h) + Delivery(c, Got(b), Keep(Since(h) + [b], FRAME_LENGTH))
  {
    var k := h + [Got(b)];
    assert k[..|h|] == h;
    AcceptedWindowIsReceived(c, k);
  }

  /** The last fourteen events are all bytes taken in exactly when the private ring is full; they are its contents
      then. */
  lemma LastFourteen(k: History)
    ensures |k| < FRAME_LENGTH ==> |Since(k)| < FRAME_LENGTH
    ensures |k| >= FRAME_LENGTH ==>
      var last := Received(k[|k| - FRAME_LENGTH..]);
      if |Since(k)| >= FRAME_LENGTH then last == Keep(Since(k), FRAME_LENGTH) else |last| < FRAME_LENGTH
  {
    SinceIsSuffix(k);
    if |Since(k)| >= FRAME_LENGTH {
      LastReceived(k);
    } else if |k| >= FRAME_LENGTH {
      ShortSince(k);
    }
  }

  lemma LastReceived(k: History)
    requires |Since(k)| >= FRAME_LENGTH
    ensures |k| >= FRAME_LENGTH && Received(k[|k| - FRAME_LENGTH..]) == Keep(Since(k), FRAME_LENGTH)
  {
    SinceIsSuffix(k);
    var w := Keep(Since(k), FRAME_LENGTH);
    assert k[|k| - FRAME_LENGTH..] == Gots(w);
    ReceivedOfGots(w);
  }

  lemma SplitAt<T>(s: seq<T>, i: nat)
    requires i <= |s|
    ensures s == s[..i] + s[i..]
  {}

  /** With fewer than fourteen bytes since the last sending, the last fourteen events include a sending. */
  lemma ShortSince(k: History)
    requires |k| >= FRAME_LENGTH && |Since(k)| < FRAME_LENGTH
    ensures |Received(k[|k| - FRAME_LENGTH..])| < FRAME_LENGTH
  {
    var last := k[|k| - FRAME_LENGTH..];
    if |Received(last)| >= FRAME_LENGTH {
      AllReceived(last);
      SinceAfterGots(k[..|k| - FRAME_LENGTH], Received(last));
      SplitAt(k, |k| - FRAME_LENGTH);
      assert false;
    }
  }

  lemma {:induction false} AllReceived(h: History)
    ensures |Received(h)| <= |h|
    ensures |Received(h)| == |h| ==> h == Gots(Received(h))
  {
    if h == [] {
    } else {
      AllReceived(h[..|h| - 1]);
    }
  }

  lemma {:induction false} ReceivedOfGots(w: seq<byte>)
    ensures Received(Gots(w)) == w
  {
    if w == [] {
    } else {
      ReceivedOfGots(w[..|w| - 1]);
      assert Gots(w)[..|w| - 1] == Gots(w[..|w| - 1]);
    }
  }

  lemma {:induction false} SinceIsSuffix(h: History)
    ensures |Since(h)| <= |h| && h[|h| - |Since(h)|..] == Gots(Since(h))
    ensures |Since(h)| <= |Received(h)| && Received(h)[|Received(h)| - |Since(h)|..] == Since(h)
  {
    if h == [] || h[|h| - 1].Sent? {
    } else {
      SinceIsSuffix(h[..|h| - 1]);
    }
  }

  lemma {:induction false} SinceAfterGots(h: History, w: seq<byte>)
    ensures Since(h + Gots(w)) == Since(h) + w
    decreases |w|
  {
    if w == [] {
      assert h + Gots(w) == h;
    } else {
      var k, v := h + Gots(w), w[..|w| - 1];
      assert k[..|k| - 1] == h + Gots(v);
      SinceAfterGots(h, v);
      assert v + [w[|w| - 1]] == w;
    }
  }

  /** A sending in the middle of an incoming frame loses that frame: neither half is ever delivered. */
  lemma SendingInsideAFrameLosesIt(c: Codec, a: History, frame: Msg, k: nat, m: Msg)
    requires WellFramed(c)
    requires 0 < k < FRAME_LENGTH && GoodFrame(c, frame)
    ensures Deliveries(c, a + Gots(c.frame(frame)[..k]) + [Sent(m)] + Gots(c.frame(frame)[k..]))
      == Deliveries(c, a + Gots(c.frame(frame)[..k]))
  {
    SendingSplitsTheRun(c, a + Gots(c.frame(frame)[..k]), m, Gots(c.frame(frame)[k..]));
    NothingFromLessThanAFrame(c, Gots(c.frame(frame)[k..]));
  }

  lemma {:induction false} NothingFromLessThanAFrame(c: Codec, h: History)
    requires WellFramed(c)
    requires |h| < FRAME_LENGTH
    ensures Deliveries(c, h) == []
  {
    if h == [] {
    } else {
      NothingFromLessThanAFrame(c, h[..|h| - 1]);
      if h[|h| - 1].Got? {
        AcceptedWindowIsReceived(c, h);
        SinceIsSuffix(h);
      }
    }
  }
}
