/**
 A stream of frames as a receiver takes it in, in pieces and between sendings of its own. The
 stream may begin with noise and may have other bytes between its frames, as long as they hold
 no opening bracket. What is handed over is decided frame by frame: a frame arrives unless the
 receiver sent one of its own while that frame was half in.
 */
module Streams {
  import opened Bits
  import opened Rings
  import opened Frames
  import opened Link

  function FramesOf(c: Codec, ms: seq<Msg>): (ws: seq<seq<byte>>)
    ensures |ws| == |ms|
  {
    if ms == [] then [] else FramesOf(c, ms[..|ms| - 1]) + [c.frame(ms[|ms| - 1])]
  }

  /** The messages read off a list of windows. */
  function ValuesOf(c: Codec, ws: seq<seq<byte>>): (ms: seq<Msg>)
    ensures |ms| == |ws|
  {
    if ws == [] then [] else ValuesOf(c, ws[..|ws| - 1]) + [c.value(ws[|ws| - 1])]
  }

  lemma {:induction false} FramesRead(c: Codec, ms: seq<Msg>)
    requires WellFramed(c)
    ensures ValuesOf(c, FramesOf(c, ms)) == ms
  {
    if ms == [] {
    } else {
      FramesRead(c, ms[..|ms| - 1]);
      assert GoodFrame(c, ms[|ms| - 1]);
    }
  }

  /** The windows delivered while fewer than a frame's worth of bytes had followed g bytes of noise. */
  function Early(c: Codec, h: History, g: nat): seq<seq<byte>> {
    if |Received(h)| < g + FRAME_LENGTH then Deliveries(c, h) else if h == [] then [] else Early(c, h[..|h| - 1], g)
  }

  /** Stream s has the frame of ms[k] at place heads[k], in this order, and from place g on an opening bracket only
      at those places. */
  ghost predicate Laid(c: Codec, s: seq<byte>, g: nat, heads: seq<nat>, ms: seq<Msg>) {
    && |heads| == |ms|
    && (forall k :: 0 <= k < |heads| ==> g <= heads[k] && FrameAt(c, s, heads[k], ms[k]))
    && (forall j, k :: 0 <= j < k < |heads| ==> heads[j] + FRAME_LENGTH <= heads[k])
    && (forall i :: g <= i < |s| && s[i] == BEGIN ==> i in heads)
  }

  predicate FrameAt(c: Codec, s: seq<byte>, at: nat, m: Msg) {
    at + FRAME_LENGTH <= |s| && s[at..at + FRAME_LENGTH] == c.frame(m)
  }

  /** A frame was sent when between one and thirteen bytes of the frame at this place had been taken in. */
  predicate Cut(h: History, at: nat) {
    h != [] && (Cut(h[..|h| - 1], at) || (h[|h| - 1].Sent? && at < |Received(h)| < at + FRAME_LENGTH))
  }

  /** No frame was sent inside one of the frames at these places. */
  ghost predicate NoneCut(h: History, heads: seq<nat>) {
    forall k :: 0 <= k < |heads| ==> !Cut(h, heads[k])
  }

  /** The messages whose frames were not cut. */
  function Uncut(h: History, heads: seq<nat>, ms: seq<Msg>): (r: seq<Msg>)
    requires |heads| == |ms|
    ensures |r| <= |ms|
  {
    if ms == [] then []
    else
      var n := |ms| - 1;
      Uncut(h, heads[..n], ms[..n]) + if Cut(h, heads[n]) then [] else [ms[n]]
  }

  // ---------------------------------------------------------------------------
  // One more event
  // ---------------------------------------------------------------------------

  lemma GotStep(h: History, b: byte)
    ensures Received(h + [Got(b)]) == Received(h) + [b]
    ensures Since(h + [Got(b)]) == Since(h) + [b]
  {
    assert (h + [Got(b)])[..|h|] == h;
  }

  lemma SentStep(c: Codec, h: History, m: Msg)
    ensures Received(h + [Sent(m)]) == Received(h) && Deliveries(c, h + [Sent(m)]) == Deliveries(c, h)
  {
    assert (h + [Sent(m)])[..|h|] == h;
  }

  lemma EarlyStep(c: Codec, h: History, e: Event, g: nat)
    ensures Early(c, h + [e], g) ==
      if |Received(h + [e])| < g + FRAME_LENGTH then Deliveries(c, h + [e]) else Early(c, h, g)
  {
    assert (h + [e])[..|h|] == h;
  }

  lemma CutStep(h: History, e: Event, at: nat)
    ensures Cut(h + [e], at) <==> Cut(h, at) || (e.Sent? && at < |Received(h)| < at + FRAME_LENGTH)
  {
    assert (h + [e])[..|h|] == h;
  }

  /** While a frame is coming in, it has been cut exactly if some of it came in before the last sending. */
  lemma {:induction false} CutIsShort(h: History, at: nat)
    requires |Received(h)| < at + FRAME_LENGTH
    ensures Cut(h, at) <==> |Since(h)| + at < |Received(h)|
  {
    if h == [] {
    } else {
      CutIsShort(h[..|h| - 1], at);
    }
  }

  lemma NothingDelivered(c: Codec, h: History, b: byte)
    requires WellFramed(c)
    requires |Since(h)| >= 13 ==> (Since(h) + [b])[|Since(h)| - 13] != BEGIN
    ensures Deliveries(c, h + [Got(b)]) == Deliveries(c, h)
  {
    assert GoodWindow(c, Keep(Since(h) + [b], FRAME_LENGTH));
    GotDelivery(c, h, b);
  }

  lemma FrameDelivered(c: Codec, h: History, b: byte, m: Msg)
    requires WellFramed(c)
    requires |Since(h)| >= 13 && (Since(h) + [b])[|Since(h)| - 13..] == c.frame(m)
    ensures Deliveries(c, h + [Got(b)]) == Deliveries(c, h) + [c.frame(m)]
  {
    GotDelivery(c, h, b);
    assert GoodFrame(c, m);
  }

  /** A full window behind a byte is the last fourteen bytes of the stream. */
  lemma WindowInStream(h: History, b: byte, s: seq<byte>)
    requires Received(h) + [b] <= s && |Since(h)| >= 13
    ensures |Received(h)| >= 13
    ensures (Since(h) + [b])[|Since(h)| - 13..] == s[|Received(h)| - 13..|Received(h)| + 1]
  {
    SinceIsSuffix(h);
    var t, r := Since(h), Received(h);
    assert r == r[..|r| - |t|] + t;
    assert s[..|r| + 1] == r + [b];
    assert s[|r| - 13..|r| + 1] == s[..|r| + 1][|r| - 13..];
  }

  /** A byte that does not end a frame of the stream delivers nothing. */
  lemma OtherByte(c: Codec, h: History, b: byte, s: seq<byte>)
    requires WellFramed(c) && Received(h) + [b] <= s
    requires |Received(h)| >= 13 ==> s[|Received(h)| - 13] != BEGIN
    ensures Deliveries(c, h + [Got(b)]) == Deliveries(c, h)
  {
    if |Since(h)| >= 13 {
      WindowInStream(h, b, s);
      assert (Since(h) + [b])[|Since(h)| - 13..][0] == s[|Received(h)| - 13..|Received(h)| + 1][0];
    }
    NothingDelivered(c, h, b);
  }

  /** The byte that ends a frame delivers it, unless the frame was cut. */
  lemma LastByte(c: Codec, h: History, b: byte, s: seq<byte>, at: nat, m: Msg)
    requires WellFramed(c) && Received(h) + [b] <= s
    requires |Received(h)| == at + 13 && FrameAt(c, s, at, m)
    ensures Deliveries(c, h + [Got(b)]) == Deliveries(c, h) + if Cut(h, at) then [] else [c.frame(m)]
  {
    CutIsShort(h, at);
    if Cut(h, at) {
      NothingDelivered(c, h, b);
    } else {
      WindowInStream(h, b, s);
      FrameDelivered(c, h, b, m);
    }
  }

  // ---------------------------------------------------------------------------
  // Every run
  // ---------------------------------------------------------------------------

  /** d frames of the stream end within its first r bytes. */
  predicate Ended(heads: seq<nat>, r: nat, d: nat) {
    && d <= |heads|
    && (d > 0 ==> heads[d - 1] + FRAME_LENGTH <= r)
    && (d < |heads| ==> r < heads[d] + FRAME_LENGTH)
  }

  /** A later event does not change which of the frames already ended were cut. */
  lemma {:induction false} UncutStep(h: History, e: Event, heads: seq<nat>, ms: seq<Msg>)
    requires |heads| == |ms|
    requires forall k :: 0 <= k < |heads| ==> heads[k] + FRAME_LENGTH <= |Received(h)|
    ensures Uncut(h + [e], heads, ms) == Uncut(h, heads, ms)
  {
    if ms == [] {
    } else {
      var n := |ms| - 1;
      UncutStep(h, e, heads[..n], ms[..n]);
      CutStep(h, e, heads[n]);
    }
  }

  lemma UncutMore(h: History, heads: seq<nat>, ms: seq<Msg>, d: nat)
    requires |heads| == |ms| && d < |ms|
    ensures Uncut(h, heads[..d + 1], ms[..d + 1])
      == Uncut(h, heads[..d], ms[..d]) + if Cut(h, heads[d]) then [] else [ms[d]]
  {
    assert heads[..d + 1][..d] == heads[..d] && ms[..d + 1][..d] == ms[..d];
  }

  lemma {:induction false} FramesAppend(c: Codec, a: seq<Msg>, b: seq<Msg>)
    requires |b| <= 1
    ensures FramesOf(c, a + b) == FramesOf(c, a) + if b == [] then [] else [c.frame(b[0])]
  {
    if b == [] {
      assert a + b == a;
    } else {
      assert (a + b)[..|a|] == a;
    }
  }

  /** A run that has taken in the ends of d frames has delivered, after what came early, those of them not cut. */
  predicate Standing(c: Codec, h: History, g: nat, heads: seq<nat>, ms: seq<Msg>, d: nat)
    requires |heads| == |ms| && d <= |ms|
  {
    Deliveries(c, h) == Early(c, h, g) + FramesOf(c, Uncut(h, heads[..d], ms[..d]))
  }

  lemma EndedBefore(h: History, heads: seq<nat>, d: nat)
    requires Ended(heads, |Received(h)|, d)
    requires forall j, k :: 0 <= j < k < |heads| ==> heads[j] + FRAME_LENGTH <= heads[k]
    ensures forall k :: 0 <= k < d ==> heads[..d][k] + FRAME_LENGTH <= |Received(h)|
  {}

  /** An event that leaves the number of frames ended and delivers nothing. */
  lemma StandingStill(c: Codec, h: History, e: Event, g: nat, heads: seq<nat>, ms: seq<Msg>, d: nat)
    requires |heads| == |ms| && Ended(heads, |Received(h)|, d) && Standing(c, h, g, heads, ms, d)
    requires forall j, k :: 0 <= j < k < |heads| ==> heads[j] + FRAME_LENGTH <= heads[k]
    requires Deliveries(c, h + [e]) == Deliveries(c, h)
    ensures Early(c, h + [e], g) == Early(c, h, g) ==> Standing(c, h + [e], g, heads, ms, d)
  {
    EndedBefore(h, heads, d);
    UncutStep(h, e, heads[..d], ms[..d]);
  }

  /** The byte that ends frame d. */
  lemma StandingMore(c: Codec, h: History, b: byte, s: seq<byte>, g: nat, heads: seq<nat>, ms: seq<Msg>, d: nat)
    requires WellFramed(c) && Laid(c, s, g, heads, ms) && Received(h) + [b] <= s
    requires d < |ms| && |Received(h)| == heads[d] + 13
    requires Ended(heads, |Received(h)|, d) && Standing(c, h, g, heads, ms, d)
    ensures Standing(c, h + [Got(b)], g, heads, ms, d + 1)
  {
    LastByte(c, h, b, s, heads[d], ms[d]);
    EarlyStep(c, h, Got(b), g);
    GotStep(h, b);
    EndedBefore(h, heads, d);
    UncutStep(h, Got(b), heads[..d], ms[..d]);
    CutStep(h, Got(b), heads[d]);
    UncutMore(h + [Got(b)], heads, ms, d);
    var found := if Cut(h, heads[d]) then [] else [ms[d]];
    FramesAppend(c, Uncut(h, heads[..d], ms[..d]), found);
    Longer(Early(c, h, g), FramesOf(c, Uncut(h, heads[..d], ms[..d])), if found == [] then [] else [c.frame(ms[d])]);
  }

  lemma Longer<T>(a: seq<T>, b: seq<T>, x: seq<T>)
    ensures a + b + x == a + (b + x)
  {}

  /** Any other byte, once a frame's worth has followed the noise. */
  lemma StandingOther(c: Codec, h: History, b: byte, s: seq<byte>, g: nat, heads: seq<nat>, ms: seq<Msg>, d: nat)
    requires WellFramed(c) && Laid(c, s, g, heads, ms) && Received(h) + [b] <= s
    requires Ended(heads, |Received(h)|, d) && Ended(heads, |Received(h)| + 1, d)
    requires |Received(h)| >= g + 13 && Standing(c, h, g, heads, ms, d)
    ensures Standing(c, h + [Got(b)], g, heads, ms, d)
  {
    NoHeadBack(heads, |Received(h)|, d);
    OtherByte(c, h, b, s);
    EarlyStep(c, h, Got(b), g);
    GotStep(h, b);
    StandingStill(c, h, Got(b), g, heads, ms, d);
  }

  lemma NoHeadBack(heads: seq<nat>, r: nat, d: nat)
    requires forall j, k :: 0 <= j < k < |heads| ==> heads[j] + FRAME_LENGTH <= heads[k]
    requires Ended(heads, r, d) && Ended(heads, r + 1, d) && r >= 13
    ensures r - 13 !in heads
  {}

  /** Before that, what has been delivered is what came early. */
  lemma StandingEarly(c: Codec, h: History, g: nat, heads: seq<nat>, ms: seq<Msg>)
    requires |heads| == |ms| && |Received(h)| < g + FRAME_LENGTH
    ensures Standing(c, h, g, heads, ms, 0)
  {
    assert ms[..0] == [];
    assert Deliveries(c, h) + [] == Deliveries(c, h);
  }

  lemma {:induction false} StandingAlong(c: Codec, h: History, s: seq<byte>, g: nat,
                                         heads: seq<nat>, ms: seq<Msg>, d: nat)
    requires WellFramed(c) && Laid(c, s, g, heads, ms)
    requires Received(h) <= s && Ended(heads, |Received(h)|, d)
    ensures Standing(c, h, g, heads, ms, d)
    decreases |h|
  {
    if |Received(h)| < g + FRAME_LENGTH {
      StandingEarly(c, h, g, heads, ms);
    } else {
      var f, e := h[..|h| - 1], h[|h| - 1];
      assert h == f + [e];
      match e {
        case Got(b) =>
          GotStep(f, b);
          if d > 0 && heads[d - 1] + FRAME_LENGTH == |Received(h)| {
            StandingAlong(c, f, s, g, heads, ms, d - 1);
            StandingMore(c, f, b, s, g, heads, ms, d - 1);
          } else {
            StandingAlong(c, f, s, g, heads, ms, d);
            StandingOther(c, f, b, s, g, heads, ms, d);
          }
        case Sent(m) =>
          SentStep(c, f, m);
          EarlyStep(c, f, e, g);
          StandingAlong(c, f, s, g, heads, ms, d);
          StandingStill(c, f, e, g, heads, ms, d);
      }
    }
  }

  /** Noise that holds no opening bracket delivers nothing before the first frame is complete. */
  lemma {:induction false} QuietStart(c: Codec, h: History, s: seq<byte>, g: nat)
    requires WellFramed(c) && Received(h) <= s && g <= |s| && BEGIN !in s[..g]
    ensures Early(c, h, g) == []
  {
    if h == [] {
    } else {
      var f, e := h[..|h| - 1], h[|h| - 1];
      assert h == f + [e];
      EarlyStep(c, f, e, g);
      match e {
        case Got(b) =>
          GotStep(f, b);
          QuietStart(c, f, s, g);
          if |Received(h)| < g + FRAME_LENGTH {
            if |Received(f)| >= 13 { assert s[|Received(f)| - 13] == s[..g][|Received(f)| - 13]; }
            OtherByte(c, f, b, s);
          }
        case Sent(m) =>
          SentStep(c, f, m);
          QuietStart(c, f, s, g);
      }
    }
  }

  /** Every run of every receiver over every such stream: what it hands over is, after what came early, exactly the
      frames ended that were not cut, in order; and without a bracket in the noise nothing comes early. */
  lemma UncutFramesArrive(c: Codec, h: History, s: seq<byte>, g: nat, heads: seq<nat>, ms: seq<Msg>, d: nat)
    requires WellFramed(c) && Laid(c, s, g, heads, ms) && g <= |s|
    requires Received(h) <= s && Ended(heads, |Received(h)|, d)
    ensures Deliveries(c, h) == Early(c, h, g) + FramesOf(c, Uncut(h, heads[..d], ms[..d]))
    ensures BEGIN !in s[..g] ==> ValuesOf(c, Deliveries(c, h)) == Uncut(h, heads[..d], ms[..d])
  {
    StandingAlong(c, h, s, g, heads, ms, d);
    var got := Uncut(h, heads[..d], ms[..d]);
    if BEGIN !in s[..g] {
      QuietStart(c, h, s, g);
      assert [] + FramesOf(c, got) == FramesOf(c, got);
      FramesRead(c, got);
    }
  }

  /** All messages arrive exactly if no frame was cut. */
  lemma {:induction false} AllUncut(h: History, heads: seq<nat>, ms: seq<Msg>)
    requires |heads| == |ms|
    ensures Uncut(h, heads, ms) == ms <==> NoneCut(h, heads)
  {
    if ms == [] {
    } else {
      var n := |ms| - 1;
      AllUncut(h, heads[..n], ms[..n]);
      assert ms == ms[..n] + [ms[n]];
      assert forall k :: 0 <= k < n ==> heads[..n][k] == heads[k];
    }
  }

  lemma {:induction false} UncutAreSent(h: History, heads: seq<nat>, ms: seq<Msg>)
    requires |heads| == |ms|
    ensures forall m :: m in Uncut(h, heads, ms) ==> m in ms
  {
    if ms == [] {
    } else {
      var n := |ms| - 1;
      UncutAreSent(h, heads[..n], ms[..n]);
    }
  }
}
