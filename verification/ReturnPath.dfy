/**
 The other direction, and both together: what the device transmits is its frames back to back,
 with nothing between them, and a host hands over every one it does not cut by sending.
 */
module ReturnPath {
  import opened Options
  import opened Bits
  import opened Frames
  import opened Link
  import opened Streams
  import opened EndToEnd
  import opened Relays
  import opened Panels
  import opened Devices
  import opened Hosts

  /** Where n frames back to back begin behind g bytes of noise. */
  function FrameHeads(g: nat, n: nat): (heads: seq<nat>)
    ensures |heads| == n && forall k :: 0 <= k < n ==> heads[k] == g + 14 * k
  {
    seq(n, k requires 0 <= k < n => g + 14 * k)
  }

  /** The messages whose frames the receiver did not cut in two by a sending of its own. */
  function SurvivingFrames(h: History, g: nat, ms: seq<Msg>): (r: seq<Msg>)
    ensures |r| <= |ms|
  {
    Uncut(h, FrameHeads(g, |ms|), ms)
  }

  predicate AtSeam(r: nat, g: nat) {
    r <= g || (r - g) % 14 == 0
  }

  /** No frame was sent while an incoming frame of the unseparated stream had begun and not ended. */
  predicate SendsAtSeams(h: History, g: nat) {
    h == [] || (SendsAtSeams(h[..|h| - 1], g) && (h[|h| - 1].Sent? ==> AtSeam(|Received(h)|, g)))
  }

  // ---------------------------------------------------------------------------
  // Places in the stream
  // ---------------------------------------------------------------------------

  lemma {:induction false} FlatLength(c: Codec, ms: seq<Msg>)
    requires WellFramed(c)
    ensures |Flat(c, ms)| == 14 * |ms|
  {
    if ms == [] {
    } else {
      FlatLength(c, ms[..|ms| - 1]);
      assert GoodFrame(c, ms[|ms| - 1]);
    }
  }

  lemma {:induction false} FlatAt(c: Codec, ms: seq<Msg>, k: nat)
    requires WellFramed(c)
    requires k < |ms|
    ensures 14 * k + 14 <= |Flat(c, ms)| && Flat(c, ms)[14 * k..14 * k + 14] == c.frame(ms[k])
  {
    var front := ms[..|ms| - 1];
    FlatLength(c, ms);
    FlatLength(c, front);
    if k == |ms| - 1 {
    } else {
      FlatAt(c, front, k);
      assert Flat(c, ms)[14 * k..14 * k + 14] == Flat(c, front)[14 * k..14 * k + 14];
    }
  }

  lemma FrameInFlat(c: Codec, noise: seq<byte>, ms: seq<Msg>, k: nat)
    requires WellFramed(c)
    requires k < |ms|
    ensures FrameAt(c, noise + Flat(c, ms), |noise| + 14 * k, ms[k])
  {
    var s, w := noise + Flat(c, ms), Flat(c, ms);
    FlatAt(c, ms, k);
    assert s[|noise| + 14 * k..|noise| + 14 * k + 14] == w[14 * k..14 * k + 14];
  }

  /** In the device's stream an opening bracket stands at the head of a frame and nowhere else. */
  lemma HeadInFlat(c: Codec, noise: seq<byte>, ms: seq<Msg>, i: nat)
    requires WellFramed(c)
    requires |noise| <= i < |noise| + |Flat(c, ms)| && (noise + Flat(c, ms))[i] == BEGIN
    ensures i in FrameHeads(|noise|, |ms|)
  {
    var k, j := (i - |noise|) / 14, (i - |noise|) % 14;
    FlatLength(c, ms);
    FlatAt(c, ms, k);
    assert GoodFrame(c, ms[k]);
    assert (noise + Flat(c, ms))[i] == Flat(c, ms)[14 * k..14 * k + 14][j];
    assert FrameHeads(|noise|, |ms|)[k] == i - j;
  }

  lemma FlatIsLaid(c: Codec, noise: seq<byte>, ms: seq<Msg>)
    requires WellFramed(c)
    ensures Laid(c, noise + Flat(c, ms), |noise|, FrameHeads(|noise|, |ms|), ms)
  {
    var s, heads := noise + Flat(c, ms), FrameHeads(|noise|, |ms|);
    forall k | 0 <= k < |ms|
      ensures FrameAt(c, s, heads[k], ms[k])
    {
      FrameInFlat(c, noise, ms, k);
    }
    forall i | |noise| <= i < |s| && s[i] == BEGIN
      ensures i in heads
    {
      HeadInFlat(c, noise, ms, i);
    }
  }

  // ---------------------------------------------------------------------------
  // What arrives
  // ---------------------------------------------------------------------------

  /** At any moment of any run over the device's stream: the messages handed over are exactly those of the d frames
      ended that were not cut. */
  lemma FramesSoFar(c: Codec, h: History, noise: seq<byte>, ms: seq<Msg>, d: nat)
    requires WellFramed(c)
    requires Received(h) <= noise + Flat(c, ms) && Ended(FrameHeads(|noise|, |ms|), |Received(h)|, d)
    ensures Deliveries(c, h) == Early(c, h, |noise|) + FramesOf(c, SurvivingFrames(h, |noise|, ms[..d]))
    ensures BEGIN !in noise ==> ValuesOf(c, Deliveries(c, h)) == SurvivingFrames(h, |noise|, ms[..d])
  {
    var s, heads := noise + Flat(c, ms), FrameHeads(|noise|, |ms|);
    FlatIsLaid(c, noise, ms);
    assert s[..|noise|] == noise;
    assert heads[..d] == FrameHeads(|noise|, d);
    UncutFramesArrive(c, h, s, |noise|, heads, ms, d);
  }

  /** A sending is at a seam exactly if it cuts no frame. */
  lemma {:induction false} SeamsCutNothing(h: History, g: nat, heads: seq<nat>)
    requires heads == FrameHeads(g, |heads|) && |Received(h)| <= g + 14 * |heads|
    ensures SendsAtSeams(h, g) <==> NoneCut(h, heads)
  {
    if h == [] {
    } else {
      SeamsCutNothing(h[..|h| - 1], g, heads);
      SeamIsOutside(|Received(h)|, g, heads);
    }
  }

  lemma SeamIsOutside(r: nat, g: nat, heads: seq<nat>)
    requires heads == FrameHeads(g, |heads|) && r <= g + 14 * |heads|
    ensures AtSeam(r, g) <==> forall k :: 0 <= k < |heads| ==> !(heads[k] < r < heads[k] + FRAME_LENGTH)
  {
    if AtSeam(r, g) {
      forall k | 0 <= k < |heads|
        ensures !(heads[k] < r < heads[k] + FRAME_LENGTH)
      {
        if heads[k] < r < heads[k] + FRAME_LENGTH { NotASeam(k, r - heads[k]); }
      }
    } else {
      var k := (r - g) / 14;
      assert heads[k] < r < heads[k] + FRAME_LENGTH;
    }
  }

  lemma NotASeam(k: nat, j: nat)
    requires 1 <= j < 14
    ensures (14 * k + j) % 14 == j
  {}

  lemma AllFramesSurvive(h: History, g: nat, ms: seq<Msg>)
    requires |Received(h)| <= g + 14 * |ms|
    ensures SurvivingFrames(h, g, ms) == ms <==> SendsAtSeams(h, g)
  {
    AllUncut(h, FrameHeads(g, |ms|), ms);
    SeamsCutNothing(h, g, FrameHeads(g, |ms|));
  }

  /** Of a whole unseparated stream exactly the frames not cut arrive, in order and unchanged, after any noise; all of
      them exactly if the receiver sent only at the seams. */
  lemma EveryFrameArrives(c: Codec, h: History, noise: seq<byte>, ms: seq<Msg>)
    requires WellFramed(c)
    requires Received(h) == noise + Flat(c, ms)
    ensures Deliveries(c, h) == Early(c, h, |noise|) + FramesOf(c, SurvivingFrames(h, |noise|, ms))
    ensures BEGIN !in noise ==> ValuesOf(c, Deliveries(c, h)) == SurvivingFrames(h, |noise|, ms)
    ensures BEGIN !in noise ==> (ValuesOf(c, Deliveries(c, h)) == ms <==> SendsAtSeams(h, |noise|))
  {
    FlatLength(c, ms);
    FramesSoFar(c, h, noise, ms, |ms|);
    assert ms[..|ms|] == ms;
    AllFramesSurvive(h, |noise|, ms);
  }

  // ---------------------------------------------------------------------------
  // The device's messages at the host
  // ---------------------------------------------------------------------------

  /** Two codecs that build the wire's frames transmit the same bytes. */
  lemma {:induction false} SameFlat(a: Codec, b: Codec, ms: seq<Msg>)
    requires Wired(a) && Wired(b)
    ensures Flat(a, ms) == Flat(b, ms)
  {
    if ms == [] {
    } else {
      SameFlat(a, b, ms[..|ms| - 1]);
      assert BuildsFrame(a, ms[|ms| - 1]) && BuildsFrame(b, ms[|ms| - 1]);
    }
  }

  /** A host that has taken in everything a device transmitted has handled exactly those of the device's messages it
      did not cut in two by sending, in order; and all of them exactly if it sent at the seams only. */
  lemma DeviceReachesHost(d: Device, host: Host)
    requires d.Valid() && host.Valid()
    requires Received(host.hist) == d.uart
    ensures host.handled == SurvivingFrames(host.hist, 0, SentIn(d.hist))
    ensures host.handled == SentIn(d.hist) <==> SendsAtSeams(host.hist, 0)
  {
    var ms := SentIn(d.hist);
    SameFlat(host.codec, d.codec, ms);
    assert [] + Flat(host.codec, ms) == d.uart;
    EveryFrameArrives(host.codec, host.hist, [], ms);
  }

  predicate IsReport(m: Msg, register: byte) {
    m.kind == MSG_SUBSCRIBE_REGISTER && m.p1 == register
  }

  /** The last report on a register was not cut. */
  predicate LastReportUncut(h: History, heads: seq<nat>, ms: seq<Msg>, register: byte)
    requires |heads| == |ms|
  {
    if ms == [] then true
    else
      var n := |ms| - 1;
      if IsReport(ms[n], register) then !Cut(h, heads[n]) else LastReportUncut(h, heads[..n], ms[..n], register)
  }

  /** Whatever else was cut, only the last report counts. */
  lemma {:induction false} LastReportCounts(h: History, heads: seq<nat>, ms: seq<Msg>, register: byte)
    requires |heads| == |ms| && LastReportUncut(h, heads, ms, register)
    ensures LastReport(Uncut(h, heads, ms), register) == LastReport(ms, register)
  {
    if ms == [] {
    } else {
      var n := |ms| - 1;
      var got := Uncut(h, heads[..n], ms[..n]);
      assert got + [] == got;
      LastReportOfAppended(got, ms[n], register);
      if !IsReport(ms[n], register) {
        LastReportCounts(h, heads[..n], ms[..n], register);
      }
    }
  }

  /** A host knows the relays if only the device's last report on them was not cut, whatever became of the others: its
      last standing report, if it wants one, is how they are. */
  lemma HostKnowsTheRelays(d: Device, host: Host)
    requires d.Valid() && host.Valid()
    requires Received(host.hist) == d.uart
    requires LastReportUncut(host.hist, FrameHeads(0, |SentIn(d.hist)|), SentIn(d.hist), REG_OUTPUT_1)
    ensures LastReport(host.handled, REG_OUTPUT_1)
      == if Wanted(ValuesOf(d.codec, Deliveries(d.codec, d.hist)), REG_OUTPUT_1) then Some(ReadOutputs(d.porta) as byte)
         else None
  {
    DeviceReachesHost(d, host);
    LastReportCounts(host.hist, FrameHeads(0, |SentIn(d.hist)|), SentIn(d.hist), REG_OUTPUT_1);
    DeviceInvariant(d);
  }

  // ---------------------------------------------------------------------------
  // Both directions at once
  // ---------------------------------------------------------------------------

  lemma FramesEnded(r: nat, g: nat, n: nat)
    requires r <= g + 14 * n
    ensures Ended(FrameHeads(g, n), r, if r < g then 0 else (r - g) / 14)
  {}

  /** At any moment of an exchange, what a host has handled are messages the device has sent. */
  lemma HandledWereSent(d: Device, host: Host)
    requires d.Valid() && host.Valid() && Received(host.hist) <= d.uart
    ensures forall m :: m in host.handled ==> m in SentIn(d.hist)
  {
    var c, h, ms := host.codec, host.hist, SentIn(d.hist);
    SameFlat(c, d.codec, ms);
    FlatLength(c, ms);
    assert [] + Flat(c, ms) == d.uart;
    var n := |Received(h)| / 14;
    FramesEnded(|Received(h)|, 0, |ms|);
    FramesSoFar(c, h, [], ms, n);
    UncutAreSent(h, FrameHeads(0, n), ms[..n]);
  }

  /** At any moment of an exchange, a device has handled no more messages than the host has sent. */
  lemma NoMoreThanSent(d: Device, host: Host, noise: seq<byte>)
    requires d.Valid() && host.Valid() && host.faultless && !d.overrun
    requires d.arrived <= noise + host.line && BEGIN !in noise
    ensures |Messages(d.ticks)| <= |SentIn(host.hist)|
  {
    var c, h, ms := d.codec, d.hist, SentIn(host.hist);
    SameWire(host.codec, c, ms);
    var r := |Received(h)|;
    PacketsEnded(r, |noise|, |ms|);
    SurvivorsSoFar(c, h, noise, ms, if r < |noise| then 0 else (r - |noise| + 1) / 15);
  }

  /** A host and a device joined both ways, with bytes under way in both directions: the host has sent nothing but its
      commands, for the device never pings, and the device no more than one message for each command and for each
      poll with a changed input. So a finite list of commands and input changes is a finite exchange. */
  lemma ExchangeEnds(d: Device, host: Host, noise: seq<byte>)
    requires d.Valid() && host.Valid() && host.faultless && !d.overrun
    requires d.arrived <= noise + host.line && BEGIN !in noise
    requires Received(host.hist) <= d.uart
    ensures SentIn(host.hist) == host.commands
    ensures |SentIn(d.hist)| <= |host.commands| + InputChanges(d.ticks)
  {
    HostOnlyCommands(d, host);
    NoMoreThanSent(d, host, noise);
    DeviceInvariant(d);
  }

  lemma HostOnlyCommands(d: Device, host: Host)
    requires d.Valid() && host.Valid() && Received(host.hist) <= d.uart
    ensures SentIn(host.hist) == host.commands
  {
    DeviceInvariant(d);
    HandledWereSent(d, host);
    NoPingsNoReplies(host.handled);
    MergedWithNothing(SentIn(host.hist), host.commands);
  }
}
