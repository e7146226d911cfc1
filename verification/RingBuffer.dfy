/**
 The overwriting byte ring used on both ends of the link: storage, a first and a last
 position that wrap, and a count. Positions are offsets from the start of the storage.
 Seen from outside it is a byte sequence that never grows beyond its capacity: a push
 onto a full ring drops the oldest byte.
 */
module Rings {
  import opened Bits

  /** The last n elements of a sequence, or all of it when it is shorter. */
  function Keep<T>(s: seq<T>, n: nat): (r: seq<T>)
    ensures |r| == if |s| <= n then |s| else n
  {
    if |s| <= n then s else s[|s| - n..]
  }

  /** Forgetting early changes nothing: only the last n elements ever matter. */
  lemma KeepTwice<T>(s: seq<T>, t: seq<T>, n: nat)
    ensures Keep(Keep(s, n) + t, n) == Keep(s + t, n)
  {}

  lemma KeepStep<T>(s: seq<T>, t: seq<T>, i: nat, n: nat)
    requires i < |t|
    ensures Keep(Keep(s + t[..i], n) + [t[i]], n) == Keep(s + t[..i + 1], n)
  {
    KeepTwice(s + t[..i], [t[i]], n);
    assert s + t[..i] + [t[i]] == s + t[..i + 1];
  }

  /** A position that has run past the end of storage of n bytes, brought back to its start. */
  function Wrap(p: nat, n: nat): nat {
    if p < n then p else if p - n < n then p - n else 0
  }

  /** The bytes held in storage b: `size` of them from `first` on, going round the end. */
  function View(b: seq<byte>, first: nat, size: nat): (s: seq<byte>)
    requires size <= |b| && (|b| == 0 || first < |b|)
    ensures |s| == size
    decreases size
  {
    if size == 0 then [] else [b[first]] + View(b, Wrap(first + 1, |b|), size - 1)
  }

  lemma {:induction false} ViewAt(b: seq<byte>, first: nat, size: nat, k: nat)
    requires k < size <= |b| && first < |b|
    ensures Wrap(first + k, |b|) < |b| && View(b, first, size)[k] == b[Wrap(first + k, |b|)]
    decreases k
  {
    if k == 0 {
    } else {
      ViewAt(b, Wrap(first + 1, |b|), size - 1, k - 1);
    }
  }

  /** Writing one past the last byte, with room to spare, appends it. */
  lemma ViewAppend(b: seq<byte>, first: nat, size: nat, item: byte)
    requires size < |b| && first < |b|
    ensures var last := Wrap(first + size, |b|);
      last < |b| && View(b[last := item], first, size + 1) == View(b, first, size) + [item]
  {
    var last := Wrap(first + size, |b|);
    var c := b[last := item];
    forall k | 0 <= k < size + 1
      ensures View(c, first, size + 1)[k] == (View(b, first, size) + [item])[k]
    {
      ViewAt(c, first, size + 1, k);
      if k < size { ViewAt(b, first, size, k); }
    }
  }

  /** Writing over the oldest byte of full storage and starting one later drops it and appends the new one. */
  lemma ViewReplace(b: seq<byte>, first: nat, item: byte)
    requires first < |b|
    ensures var next := Wrap(first + 1, |b|);
      View(b[first := item], next, |b|) == View(b, first, |b|)[1..] + [item]
  {
    var n := |b|;
    var next := Wrap(first + 1, n);
    var c := b[first := item];
    forall k | 0 <= k < n
      ensures View(c, next, n)[k] == (View(b, first, n)[1..] + [item])[k]
    {
      ViewAt(c, next, n, k);
      if k < n - 1 { ViewAt(b, first, n, k + 1); }
    }
  }

  lemma ViewSplitLast(b: seq<byte>, first: nat, size: nat)
    requires 0 < size <= |b| && first < |b|
    ensures var at := Wrap(first + size - 1, |b|);
      at < |b| && View(b, first, size) == View(b, first, size - 1) + [b[at]]
  {
    ViewAt(b, first, size, size - 1);
    forall k | 0 <= k < size - 1
      ensures View(b, first, size)[k] == View(b, first, size - 1)[k]
    {
      ViewAt(b, first, size, k);
      ViewAt(b, first, size - 1, k);
    }
  }

  class RingBuffer {
    var buff: array<byte>
    var first: nat
    var last: nat
    var size: nat

    ghost predicate Valid()
      reads this
    {
      && buff.Length < 256
      && size <= buff.Length
      && (buff.Length == 0 ==> first == last == 0)
      && (buff.Length > 0 ==> first < buff.Length && last == Wrap(first + size, buff.Length))
    }

    ghost function Contents(): (s: seq<byte>)
      requires Valid()
      reads this, buff
      ensures |s| == size
    {
      View(buff[..], first, size)
    }

    constructor (capacity: nat)
      requires capacity < 256
      ensures Valid() && fresh(buff)
      ensures buff.Length == capacity && Contents() == []
    {
      buff := new byte[capacity];
      first, last, size := 0, 0, 0;
    }

    /** New storage, nothing in it. */
    method Init(capacity: nat)
      requires capacity < 256
      modifies this
      ensures Valid() && fresh(buff)
      ensures buff.Length == capacity && Contents() == []
    {
      buff := new byte[capacity];
      first, last, size := 0, 0, 0;
    }

    /** Storage given back: a ring of no capacity, which swallows whatever is pushed. */
    method Free()
      modifies this
      ensures Valid() && fresh(buff)
      ensures buff.Length == 0 && Contents() == []
    {
      buff := new byte[0];
      first, last, size := 0, 0, 0;
    }

    method Clear()
      requires Valid()
      modifies this
      ensures Valid() && buff == old(buff)
      ensures Contents() == []
    {
      first, last, size := 0, 0, 0;
    }

    method PushBack(item: byte)
      requires Valid()
      modifies this, buff
      ensures Valid() && buff == old(buff)
      ensures Contents() == Keep(old(Contents()) + [item], buff.Length)
    {
      ghost var was := buff[..];
      if size == buff.Length {
        if size == 0 {
          return;  // no capacity
        }
        ViewReplace(was, first, item);
        buff[last] := item;
        assert buff[..] == was[first := item];
        last := Increment(last);
        first := last;
      } else {
        ViewAppend(was, first, size, item);
        buff[last] := item;
        assert buff[..] == was[last := item];
        last := Increment(last);
        size := size + 1;
      }
    }

    method PopFront() returns (item: byte)
      requires Valid()
      modifies this
      ensures Valid() && buff == old(buff)
      ensures old(Contents()) == [] ==> item == 0 && Contents() == []
      ensures old(Contents()) != [] ==> old(Contents()) == [item] + Contents()
    {
      if size == 0 {
        return 0;
      }
      item := buff[first];
      first := Increment(first);
      size := size - 1;
    }

    method PopBack() returns (item: byte)
      requires Valid()
      modifies this
      ensures Valid() && buff == old(buff)
      ensures old(Contents()) == [] ==> item == 0 && Contents() == []
      ensures old(Contents()) != [] ==> old(Contents()) == Contents() + [item]
    {
      if size == 0 {
        return 0;
      }
      ViewSplitLast(buff[..], first, size);
      last := Decrement(last);
      size := size - 1;
      return buff[last];
    }

    method At(index: nat) returns (item: byte)
      requires Valid()
      ensures item == if index < |Contents()| then Contents()[index] else 0
    {
      if index >= size {
        return 0;
      }
      ViewAt(buff[..], first, size, index);
      if index < buff.Length - first {
        return buff[first + index];
      }
      return buff[first + index - buff.Length];
    }

    /** One push per byte; what no longer fits pushes out the oldest. */
    method SetData(data: seq<byte>)
      requires Valid()
      modifies this, buff
      ensures Valid() && buff == old(buff)
      ensures Contents() == Keep(old(Contents()) + data, buff.Length)
    {
      ghost var was := Contents();
      for i := 0 to |data|
        invariant Valid() && buff == old(buff)
        invariant Contents() == Keep(was + data[..i], buff.Length)
      {
        PushBack(data[i]);
        KeepStep(was, data, i, buff.Length);
      }
      assert data[..|data|] == data;
    }

    /** Moves up to len bytes, oldest first, into the front of a caller's buffer. */
    method GetData(dst: array<byte>, len: nat) returns (n: nat)
      requires Valid() && len <= dst.Length && dst != buff
      modifies this, dst
      ensures Valid() && buff == old(buff)
      ensures n == if |old(Contents())| < len then |old(Contents())| else len
      ensures dst[..n] == old(Contents())[..n] && dst[n..] == old(dst[n..])
      ensures Contents() == old(Contents())[n..]
    {
      ghost var was := Contents();
      n := if size < len then size else len;
      for i := 0 to n
        invariant Valid() && buff == old(buff)
        invariant Contents() == was[i..]
        invariant dst[..i] == was[..i] && dst[i..] == old(dst[i..])
      {
        dst[i] := PopFront();
      }
    }

    method Increment(p: nat) returns (q: nat)
      requires p < buff.Length
      ensures q == Wrap(p + 1, buff.Length)
    {
      q := p + 1;
      if q == buff.Length {
        q := 0;
      }
    }

    method Decrement(p: nat) returns (q: nat)
      requires p < buff.Length
      ensures p == Wrap(q + 1, buff.Length) && q < buff.Length
    {
      q := p;
      if q == 0 {
        q := buff.Length;
      }
      q := q - 1;
    }
  }
}
