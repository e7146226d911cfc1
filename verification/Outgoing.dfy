/**
 The websocket client's byte queues: rings of 64 bytes that messages are put into and that are
 offered to the library whole, which may take a part or refuse.
 */
module OutgoingBytes {
  import opened Bits
  import opened Rings

  const WRITE_BUF_MAX := 64

  function Min(a: int, b: int): int {
    if a < b then a else b
  }

  /** How many bytes of a message are queued: its length clamped to a byte, then to the buffer. */
  function WriteLength(n: nat): nat {
    Min(Min(n, 0xFF), WRITE_BUF_MAX)
  }

  /** A queue with all that was ever queued and all the library ever took. */
  datatype Queue = Queue(capacity: nat, pending: seq<byte>, queued: seq<byte>, accepted: seq<byte>)

  datatype QueueStep =
    | Queued(msg: seq<byte>)
    | Offered(result: int)     // the library's answer: how much it took, or a negative error
    | Sized                    // storage made sure of
    | Freed

  function NextQueue(q: Queue, s: QueueStep): Queue {
    match s
    case Queued(msg) =>
      var data := msg[..WriteLength(|msg|)];
      q.(pending := Keep(q.pending + data, q.capacity), queued := q.queued + data)
    case Offered(result) =>
      if result < 0 then q.(pending := [])
      else
        var n := Min(result, |q.pending|);
        q.(accepted := q.accepted + q.pending[..n], pending := q.pending[n..])
    case Sized => if q.capacity < WRITE_BUF_MAX then q.(capacity := WRITE_BUF_MAX, pending := []) else q
    case Freed => q.(capacity := 0, pending := [])
  }

  function RunQueue(steps: seq<QueueStep>): Queue {
    if steps == [] then Queue(0, [], [], []) else NextQueue(RunQueue(steps[..|steps| - 1]), steps[|steps| - 1])
  }

  /** The step throws no waiting byte away: a message fits, and nothing waits when the library fails or storage goes. */
  predicate Keeps(q: Queue, s: QueueStep) {
    match s
    case Queued(msg) => |q.pending| + WriteLength(|msg|) <= q.capacity
    case Offered(result) => result >= 0 || q.pending == []
    case Sized => q.capacity >= WRITE_BUF_MAX || q.pending == []
    case Freed => q.pending == []
  }

  ghost predicate AllKept(steps: seq<QueueStep>) {
    forall i :: 0 <= i < |steps| ==> Keeps(RunQueue(steps[..i]), steps[i])
  }

  lemma StepConserves(q: Queue, s: QueueStep)
    requires |q.accepted| + |q.pending| <= |q.queued|
    ensures var r := NextQueue(q, s);
      && |r.accepted| + |r.pending| <= |r.queued|
      && (r.queued == r.accepted + r.pending <==> q.queued == q.accepted + q.pending && Keeps(q, s))
  {
    var r := NextQueue(q, s);
    match s
    case Queued(msg) =>
      var data := msg[..WriteLength(|msg|)];
      if Keeps(q, s) {
        assert r.accepted + r.pending == (q.accepted + q.pending) + data;
        assert r.queued == r.accepted + r.pending ==> r.queued[..|q.queued|] == q.accepted + q.pending;
        assert r.queued[..|q.queued|] == q.queued;
      }
    case Offered(result) =>
      if result >= 0 {
        var n := Min(result, |q.pending|);
        assert r.accepted + r.pending == q.accepted + (q.pending[..n] + q.pending[n..]);
        assert q.pending[..n] + q.pending[n..] == q.pending;
      }
    case Sized =>
    case Freed =>
  }

  lemma StepFits(q: Queue, s: QueueStep)
    requires |q.pending| <= q.capacity <= WRITE_BUF_MAX
    ensures |NextQueue(q, s).pending| <= NextQueue(q, s).capacity <= WRITE_BUF_MAX
  {}

  ghost predicate Conserved(q: Queue, all: bool) {
    && |q.accepted| + |q.pending| <= |q.queued| && |q.pending| <= q.capacity <= WRITE_BUF_MAX
    && (q.queued == q.accepted + q.pending <==> all)
  }

  lemma ConservedStep(q: Queue, s: QueueStep, all: bool)
    requires Conserved(q, all)
    ensures Conserved(NextQueue(q, s), all && Keeps(q, s))
  {
    StepConserves(q, s);
    StepFits(q, s);
  }

  lemma AllKeptStep(before: seq<QueueStep>, s: QueueStep)
    ensures AllKept(before + [s]) <==> AllKept(before) && Keeps(RunQueue(before), s)
  {
    var n, steps := |before|, before + [s];
    assert steps[..n] == before && steps[n] == s;
    if AllKept(steps) {
      forall i | 0 <= i < n
        ensures Keeps(RunQueue(before[..i]), before[i])
      {
        assert before[..i] == steps[..i] && before[i] == steps[i];
      }
    }
    if AllKept(before) && Keeps(RunQueue(before), s) {
      forall i | 0 <= i < n + 1
        ensures Keeps(RunQueue(steps[..i]), steps[i])
      {
        if i < n { assert before[..i] == steps[..i] && before[i] == steps[i]; }
      }
    }
  }

  /**
   Over any run, what the library took followed by what waits is exactly what was queued, in
   order, if and only if no step threw a waiting byte away.
   */
  lemma {:induction false} BytesAreConserved(steps: seq<QueueStep>)
    ensures Conserved(RunQueue(steps), AllKept(steps))
  {
    if steps == [] {
    } else {
      var before, s := steps[..|steps| - 1], steps[|steps| - 1];
      BytesAreConserved(before);
      ConservedStep(RunQueue(before), s, AllKept(before));
      AllKeptStep(before, s);
      assert before + [s] == steps;
    }
  }

  /** Of the bytes that waited, the library's answer says how many it took from the front: these join the bytes accepted
      and the rest goes on waiting. A negative answer loses them all. */
  predicate Went(was: seq<byte>, result: int, taken: seq<byte>, accepted: seq<byte>, waiting: seq<byte>) {
    if result < 0 then accepted == taken && waiting == []
    else if result >= |was| then accepted == taken + was && waiting == []
    else accepted == taken + was[..result] && waiting == was[result..]
  }

  /** What is queued of a message: all of it, or its first 64 bytes. */
  function Clamped(msg: seq<byte>): seq<byte> {
    if |msg| <= 64 then msg else msg[..64]
  }

  lemma ClampedLength(msg: seq<byte>)
    ensures msg[..WriteLength(|msg|)] == Clamped(msg)
  {}

  lemma KeepAll(s: seq<byte>, n: nat)
    requires |s| <= n
    ensures Keep(s + [], n) == s
  {
    assert s + [] == s;
  }

  lemma {:induction false} NothingNew(steps: seq<QueueStep>, after: seq<QueueStep>)
    requires RunQueue(steps).pending == [] && forall i :: 0 <= i < |after| ==> !after[i].Queued?
    ensures RunQueue(steps + after).pending == []
    decreases |after|
  {
    if after == [] {
      assert steps + after == steps;
    } else {
      NothingNew(steps, after[..|after| - 1]);
      assert (steps + after)[..|steps + after| - 1] == steps + after[..|after| - 1];
    }
  }

  /** If nothing was thrown away, and after the last message queued the library once took as much as waited, then all
      that was ever queued has been accepted. */
  lemma AllGoesOut(before: seq<QueueStep>, result: int, after: seq<QueueStep>)
    requires AllKept(before + [Offered(result)] + after)
    requires result >= |RunQueue(before).pending| && forall i :: 0 <= i < |after| ==> !after[i].Queued?
    ensures var q := RunQueue(before + [Offered(result)] + after); q.accepted == q.queued && q.pending == []
  {
    var steps := before + [Offered(result)];
    assert steps[..|before|] == before;
    NothingNew(steps, after);
    BytesAreConserved(steps + after);
    var q := RunQueue(steps + after);
    assert q.accepted + [] == q.accepted;
  }

  class Outgoing {
    const ring: RingBuffer
    ghost var steps: seq<QueueStep>
    ghost var accepted: seq<byte>    // the bytes the library took of those handed to it

    ghost predicate Valid()
      reads this, ring, ring.buff
    {
      && ring.Valid() && ring.buff.Length <= WRITE_BUF_MAX
      && ring.Contents() == RunQueue(steps).pending
      && ring.buff.Length == RunQueue(steps).capacity
      && accepted == RunQueue(steps).accepted
    }

    constructor ()
      ensures Valid() && fresh(ring) && fresh(ring.buff)
      ensures steps == []
    {
      ring := new RingBuffer(0);
      steps, accepted := [], [];
    }

    ghost method Record(s: QueueStep)
      modifies `steps
      ensures steps == old(steps) + [s]
      ensures RunQueue(steps) == NextQueue(RunQueue(old(steps)), s)
    {
      steps := steps + [s];
      assert steps[..|steps| - 1] == old(steps);
    }

    /** Puts a message in; with no room left it pushes the oldest waiting bytes out. */
    method Send(msg: seq<byte>)
      requires Valid()
      modifies `steps, ring, ring.buff
      ensures Valid() && ring.buff == old(ring.buff)
      ensures steps == old(steps) + if msg == [] then [] else [Queued(msg)]
      ensures ring.Contents() == Keep(old(ring.Contents()) + Clamped(msg), ring.buff.Length)
    {
      if |msg| < 1 {
        KeepAll(ring.Contents(), ring.buff.Length);
        return;
      }
      ClampedLength(msg);
      var len := Min(|msg|, 0xFF);
      len := Min(len, WRITE_BUF_MAX);
      ring.SetData(msg[..len]);
      Record(Queued(msg));
    }

    /** Offers the library all that waits, which answers how much it took. What it left is put back into the ring,
        empty by then; what it refuses with an error is gone. */
    method WriteData(result: int)
      requires Valid()
      modifies `steps, `accepted, ring, ring.buff
      ensures Valid() && ring.buff == old(ring.buff)
      ensures steps == old(steps) + [Offered(result)]
      ensures Went(old(ring.Contents()), result, old(accepted), accepted, ring.Contents())
    {
      ghost var was := ring.Contents();
      Record(Offered(result));
      if ring.size < 1 {
        return;
      }
      var buf := new byte[WRITE_BUF_MAX];
      var len := ring.GetData(buf, WRITE_BUF_MAX);
      assert buf[..len] == was;
      if result < 0 {
        return;
      }
      accepted := accepted + buf[..Min(result, len)];
      if result < len {
        PutBack(ring, buf, result, len);
        assert buf[result..len] == was[result..];
      }
    }

    static method PutBack(ring: RingBuffer, buf: array<byte>, sent: nat, len: nat)
      requires ring.Valid() && ring.Contents() == [] && buf != ring.buff
      requires sent <= len <= buf.Length && len - sent <= ring.buff.Length
      modifies ring, ring.buff
      ensures ring.Valid() && ring.buff == old(ring.buff)
      ensures ring.Contents() == buf[sent..len]
    {
      ring.SetData(buf[sent..len]);
    }

    /** Storage for a connection, kept if it is there already. */
    method Prepare()
      requires Valid()
      modifies `steps, ring
      ensures Valid() && (ring.buff == old(ring.buff) || fresh(ring.buff))
      ensures steps == old(steps) + [Sized] && ring.buff.Length == WRITE_BUF_MAX
    {
      if ring.buff.Length < WRITE_BUF_MAX {
        ring.Init(WRITE_BUF_MAX);
      }
      Record(Sized);
    }

    /** With its storage goes whatever was waiting. */
    method Free()
      requires Valid()
      modifies `steps, ring
      ensures Valid() && fresh(ring.buff)
      ensures steps == old(steps) + [Freed] && accepted == old(accepted) && ring.Contents() == []
    {
      ring.Free();
      Record(Freed);
    }
  }
}
