/**
 The 16 KiB ring buffer between a client call and the network worker
 (class ByteQueue of src/async_network.cpp). Each method runs under the queue's own
 mutex, so each is one atomic step on the queue's contents.
 */
module ByteQueues {
  import opened Bytes

  const QUEUE_SIZE: nat := 16384

  /** The contents after as much of `data` as fits was appended. */
  function Pushed(q: seq<byte>, data: seq<byte>): seq<byte>
    requires |q| <= QUEUE_SIZE
  {
    q + data[..Min(|data|, QUEUE_SIZE - |q|)]
  }

  /** The next index round the ring. */
  function Next(i: nat): nat {
    if i + 1 == QUEUE_SIZE then 0 else i + 1
  }

  /** The source computes it as a remainder. */
  lemma NextIsRemainder(i: nat)
    requires i < QUEUE_SIZE
    ensures Next(i) == (i + 1) % QUEUE_SIZE
  {
  }

  /** The `count` bytes of ring `d` that start at `head`. */
  function Ring(d: seq<byte>, head: nat, count: nat): (s: seq<byte>)
    requires |d| == QUEUE_SIZE && head < QUEUE_SIZE
    ensures |s| == count
    decreases count
  {
    if count == 0 then [] else [d[head]] + Ring(d, Next(head), count - 1)
  }

  /** The index at which the next byte goes. */
  function TailOf(head: nat, count: nat): nat {
    if head + count < QUEUE_SIZE then head + count else head + count - QUEUE_SIZE
  }

  lemma {:induction false} RingGrows(d: seq<byte>, head: nat, count: nat, b: byte)
    requires |d| == QUEUE_SIZE && head < QUEUE_SIZE && count < QUEUE_SIZE
    ensures TailOf(head, count) < QUEUE_SIZE
    ensures Ring(d[TailOf(head, count) := b], head, count + 1) == Ring(d, head, count) + [b]
    decreases count
  {
    var d' := d[TailOf(head, count) := b];
    assert Ring(d', head, count + 1) == [d'[head]] + Ring(d', Next(head), count);
    if count == 0 {
      assert Ring(d', Next(head), 0) == [];
    } else {
      assert TailOf(Next(head), count - 1) == TailOf(head, count) != head;
      RingGrows(d, Next(head), count - 1, b);
      var rest := Ring(d, Next(head), count - 1);
      assert [d[head]] + (rest + [b]) == ([d[head]] + rest) + [b];
    }
  }

  class ByteQueue {
    const data: array<byte>
    var head: nat
    var tail: nat
    var count: nat

    ghost predicate Valid()
      reads this
    {
      data.Length == QUEUE_SIZE && head < QUEUE_SIZE && count <= QUEUE_SIZE && tail == TailOf(head, count)
    }

    ghost function Contents(): seq<byte>
      requires Valid()
      reads this, data
    {
      Ring(data[..], head, count)
    }

    constructor ()
      ensures Valid() && Contents() == [] && fresh(data)
    {
      data := new byte[QUEUE_SIZE];
      head, tail, count := 0, 0, 0;
    }

    method Push(bytes: seq<byte>) returns (written: nat)
      requires Valid()
      modifies this`tail, this`count, data
      ensures Valid() && written == Min(|bytes|, QUEUE_SIZE - old(count))
      ensures Contents() == Pushed(old(Contents()), bytes)
    {
      written := 0;
      while written < |bytes| && count < QUEUE_SIZE
        invariant Valid() && written <= |bytes| && count == old(count) + written
        invariant Contents() == old(Contents()) + bytes[..written]
      {
        ghost var b, was := bytes[written], Contents();
        RingGrows(data[..], head, count, b);
        ghost var next := data[..][tail := b];
        data[tail] := bytes[written];
        assert data[..] == next;
        written := written + 1;
        tail := Next(tail);
        count := count + 1;
        assert Contents() == was + [b];
        assert bytes[..written] == bytes[..written - 1] + [b];
      }
    }

    method Pop(len: nat) returns (bytes: seq<byte>)
      requires Valid()
      modifies this`head, this`count
      ensures Valid() && |bytes| == Min(len, old(count))
      ensures bytes + Contents() == old(Contents())
    {
      bytes := [];
      while |bytes| < len && count > 0
        invariant Valid() && |bytes| <= len && count == old(count) - |bytes|
        invariant bytes + Contents() == old(Contents())
      {
        bytes := bytes + [data[head]];
        head := Next(head);
        count := count - 1;
      }
    }

    method Peek(len: nat) returns (bytes: seq<byte>)
      requires Valid()
      ensures bytes == Contents()[..Min(len, count)]
    {
      bytes := [];
      var pos: nat := head;
      while |bytes| < len && |bytes| < count
        invariant |bytes| <= len && |bytes| <= count && pos < QUEUE_SIZE
        invariant bytes + Ring(data[..], pos, count - |bytes|) == Contents()
      {
        ghost var seen, rest := bytes, Ring(data[..], Next(pos), count - |bytes| - 1);
        bytes := bytes + [data[pos]];
        pos := Next(pos);
        assert seen + ([bytes[|seen|]] + rest) == bytes + rest;
      }
      ghost var rest := Ring(data[..], pos, count - |bytes|);
      assert (bytes + rest)[..|bytes|] == bytes;
    }

    method Drop(len: nat) returns (dropped: nat)
      requires Valid()
      modifies this`head, this`count
      ensures Valid() && dropped == Min(len, old(count))
      ensures Contents() == old(Contents())[dropped..]
    {
      dropped := 0;
      while dropped < len && count > 0
        invariant Valid() && dropped <= len && count == old(count) - dropped
        invariant Contents() == old(Contents())[dropped..]
      {
        head := Next(head);
        count := count - 1;
        dropped := dropped + 1;
      }
    }

    method Clear()
      requires Valid()
      modifies this`head, this`tail, this`count
      ensures Valid() && Contents() == []
    {
      head, tail, count := 0, 0, 0;
    }
  }
}
