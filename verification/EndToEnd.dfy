/**
 A whole stream from the host, seen by the receiver: noise first, then for every message its
 frame and a newline. Which messages the receiver hands over depends only on where, between the
 bytes taken in, it sent frames of its own.
 */
module EndToEnd {
  import opened Bits
  import opened Frames
  import opened Link
  import opened Streams

  const NEWLINE: byte := 0x0A

  function Packet(c: Codec, m: Msg): (s: seq<byte>)
    ensures |c.frame(m)| == FRAME_LENGTH ==> |s| == 15
  {
    c.frame(m) + [NEWLINE]
  }

  /** What the host writes for a list of messages. */
  ghost function Wire(c: Codec, ms: seq<Msg>): (s: seq<byte>)
    requires WellFramed(c)
    ensures |s| == 15 * |ms|
  {
    if ms == [] then []
    else
      assert GoodFrame(c, ms[|ms| - 1]);
      Wire(c, ms[..|ms| - 1]) + Packet(c, ms[|ms| - 1])
  }

  /** Where the frames of n packets begin behind g bytes of noise. */
  function PacketHeads(g: nat, n: nat): (heads: seq<nat>)
    ensures |heads| == n && forall k :: 0 <= k < n ==> heads[k] == g + 15 * k
  {
    seq(n, k requires 0 <= k < n => g + 15 * k)
  }

  /** The messages whose frames the receiver did not cut in two by a sending of its own. */
  function Surviving(h: History, g: nat, ms: seq<Msg>): (r: seq<Msg>)
    ensures |r| <= |ms|
  {
    Uncut(h, PacketHeads(g, |ms|), ms)
  }

  /** After r bytes of a stream with g bytes of noise in front, the receiver is not inside a frame. */
  predicate BetweenFrames(r: nat, g: nat) {
    r <= g || (r - g) % 15 == 0 || (r - g) % 15 == FRAME_LENGTH
  }

  /** No frame was sent while an incoming frame had begun and not ended. */
  predicate SendsBetweenFrames(h: History, g: nat) {
    h == [] || (SendsBetweenFrames(h[..|h| - 1], g) && (h[|h| - 1].Sent? ==> BetweenFrames(|Received(h)|, g)))
  }

  // ---------------------------------------------------------------------------
  // Places in the stream
  // ---------------------------------------------------------------------------

  lemma {:induction false} WireAt(c: Codec, ms: seq<Msg>, k: nat)
    requires WellFramed(c)
    requires k < |ms|
    ensures Wire(c, ms)[15 * k..15 * k + 15] == Packet(c, ms[k])
  {
    var front := ms[..|ms| - 1];
    if k == |ms| - 1 {
    } else {
      WireAt(c, front, k);
      assert Wire(c, ms)[15 * k..15 * k + 15] == Wire(c, front)[15 * k..15 * k + 15];
    }
  }

  /** In the host's stream an opening bracket stands at the head of every frame and nowhere else. */
  lemma BracketsInWire(c: Codec, ms: seq<Msg>, i: nat)
    requires WellFramed(c)
    requires i < |Wire(c, ms)|
    ensures Wire(c, ms)[i] == BEGIN <==> i % 15 == 0
  {
    var k, j := i / 15, i % 15;
    WireAt(c, ms, k);
    assert GoodFrame(c, ms[k]);
    assert Wire(c, ms)[i] == Packet(c, ms[k])[j];
  }

  lemma FrameInWire(c: Codec, noise: seq<byte>, ms: seq<Msg>, k: nat)
    requires WellFramed(c)
    requires k < |ms|
    ensures FrameAt(c, noise + Wire(c, ms), |noise| + 15 * k, ms[k])
  {
    var s, w := noise + Wire(c, ms), Wire(c, ms);
    WireAt(c, ms, k);
    assert GoodFrame(c, ms[k]);
    assert w[15 * k..15 * k + 14] == w[15 * k..15 * k + 15][..14];
    assert s[|noise| + 15 * k..|noise| + 15 * k + 14] == w[15 * k..15 * k + 14];
  }

  lemma WireIsLaid(c: Codec, noise: seq<byte>, ms: seq<Msg>)
    requires WellFramed(c)
    ensures Laid(c, noise + Wire(c, ms), |noise|, PacketHeads(|noise|, |ms|), ms)
  {
    var s, heads := noise + Wire(c, ms), PacketHeads(|noise|, |ms|);
    forall k | 0 <= k < |ms|
      ensures FrameAt(c, s, heads[k], ms[k])
    {
      FrameInWire(c, noise, ms, k);
    }
    forall i | |noise| <= i < |s| && s[i] == BEGIN
      ensures i in heads
    {
      HeadInWire(c, noise, ms, i);
    }
  }

  lemma HeadInWire(c: Codec, noise: seq<byte>, ms: seq<Msg>, i: nat)
    requires WellFramed(c)
    requires |noise| <= i < |noise| + 15 * |ms| && (noise + Wire(c, ms))[i] == BEGIN
    ensures i in PacketHeads(|noise|, |ms|)
  {
    BracketsInWire(c, ms, i - |noise|);
    assert PacketHeads(|noise|, |ms|)[(i - |noise|) / 15] == i;
  }

  // ---------------------------------------------------------------------------
  // What arrives
  // ---------------------------------------------------------------------------

  /** How many frames of the host's stream end within its first r bytes. */
  lemma PacketsEnded(r: nat, g: nat, n: nat)
    requires r <= g + 15 * n
    ensures Ended(PacketHeads(g, n), r, if r < g then 0 else (r - g + 1) / 15)
  {}

  /** At any moment of any run over the host's stream, with sendings wherever they may fall: after what came early,
      the messages handed over are exactly those of the d frames ended that were not cut. */
  lemma SurvivorsSoFar(c: Codec, h: History, noise: seq<byte>, ms: seq<Msg>, d: nat)
    requires WellFramed(c)
    requires Received(h) <= noise + Wire(c, ms) && Ended(PacketHeads(|noise|, |ms|), |Received(h)|, d)
    ensures Deliveries(c, h) == Early(c, h, |noise|) + FramesOf(c, Surviving(h, |noise|, ms[..d]))
    ensures BEGIN !in noise ==> ValuesOf(c, Deliveries(c, h)) == Surviving(h, |noise|, ms[..d])
  {
    var s, heads := noise + Wire(c, ms), PacketHeads(|noise|, |ms|);
    WireIsLaid(c, noise, ms);
    assert s[..|noise|] == noise;
    assert heads[..d] == PacketHeads(|noise|, d);
    UncutFramesArrive(c, h, s, |noise|, heads, ms, d);
  }

  /** Of a whole stream, exactly the survivors arrive, in order and unchanged. */
  lemma SurvivorsArrive(c: Codec, h: History, noise: seq<byte>, ms: seq<Msg>)
    requires WellFramed(c)
    requires Received(h) == noise + Wire(c, ms)
    ensures Deliveries(c, h) == Early(c, h, |noise|) + FramesOf(c, Surviving(h, |noise|, ms))
    ensures BEGIN !in noise ==> ValuesOf(c, Deliveries(c, h)) == Surviving(h, |noise|, ms)
  {
    SurvivorsSoFar(c, h, noise, ms, |ms|);
    assert ms[..|ms|] == ms;
  }

  /** A sending is between frames exactly if it cuts none of them. */
  lemma {:induction false} SendsCutNothing(h: History, g: nat, heads: seq<nat>)
    requires heads == PacketHeads(g, |heads|) && |Received(h)| <= g + 15 * |heads|
    ensures SendsBetweenFrames(h, g) <==> NoneCut(h, heads)
  {
    if h == [] {
    } else {
      SendsCutNothing(h[..|h| - 1], g, heads);
      BetweenIsOutside(|Received(h)|, g, heads);
    }
  }

  lemma BetweenIsOutside(r: nat, g: nat, heads: seq<nat>)
    requires heads == PacketHeads(g, |heads|) && r <= g + 15 * |heads|
    ensures BetweenFrames(r, g) <==> forall k :: 0 <= k < |heads| ==> !(heads[k] < r < heads[k] + FRAME_LENGTH)
  {
    if BetweenFrames(r, g) {
      forall k | 0 <= k < |heads|
        ensures !(heads[k] < r < heads[k] + FRAME_LENGTH)
      {
        if heads[k] < r < heads[k] + FRAME_LENGTH { NotAHead(k, r - heads[k]); }
      }
    } else {
      var k := (r - g) / 15;
      assert heads[k] < r < heads[k] + FRAME_LENGTH;
    }
  }

  lemma NotAHead(k: nat, j: nat)
    requires 1 <= j < 15
    ensures (15 * k + j) % 15 == j
  {}

  lemma AllSurvive(h: History, g: nat, ms: seq<Msg>)
    requires |Received(h)| <= g + 15 * |ms|
    ensures Surviving(h, g, ms) == ms <==> SendsBetweenFrames(h, g)
  {
    AllUncut(h, PacketHeads(g, |ms|), ms);
    SendsCutNothing(h, g, PacketHeads(g, |ms|));
  }

  lemma PrefixSurvives(h: History, g: nat, ms: seq<Msg>, d: nat)
    requires d <= |ms| && |Received(h)| <= g + 15 * |ms| && SendsBetweenFrames(h, g)
    ensures Surviving(h, g, ms[..d]) == ms[..d]
  {
    SendsCutNothing(h, g, PacketHeads(g, |ms|));
    assert forall k :: 0 <= k < d ==> PacketHeads(g, d)[k] == PacketHeads(g, |ms|)[k];
    AllUncut(h, PacketHeads(g, d), ms[..d]);
  }

  /** Every message of the host's stream arrives, in order and unchanged, after any noise, exactly if the receiver
      sent all its own frames between incoming ones. Nothing else is delivered once the first frame is complete, and
      nothing else at all when the noise holds no opening bracket. */
  lemma EveryMessageArrives(c: Codec, h: History, noise: seq<byte>, ms: seq<Msg>)
    requires WellFramed(c)
    requires Received(h) == noise + Wire(c, ms)
    ensures Deliveries(c, h) == Early(c, h, |noise|) + FramesOf(c, ms) <==> SendsBetweenFrames(h, |noise|)
    ensures BEGIN !in noise ==> (ValuesOf(c, Deliveries(c, h)) == ms <==> SendsBetweenFrames(h, |noise|))
  {
    SurvivorsArrive(c, h, noise, ms);
    AllSurvive(h, |noise|, ms);
    FramesAreDistinct(c, Early(c, h, |noise|), Surviving(h, |noise|, ms), ms);
  }

  lemma FramesAreDistinct(c: Codec, early: seq<seq<byte>>, a: seq<Msg>, b: seq<Msg>)
    requires WellFramed(c)
    ensures early + FramesOf(c, a) == early + FramesOf(c, b) <==> a == b
  {
    FramesRead(c, a);
    FramesRead(c, b);
    if early + FramesOf(c, a) == early + FramesOf(c, b) {
      assert (early + FramesOf(c, a))[|early|..] == FramesOf(c, a);
      assert (early + FramesOf(c, b))[|early|..] == FramesOf(c, b);
    }
  }
}
