/** The wrapping buffers between MQTT and the network (mqtt_exchange_buffer.c). */
module ExchangeBuffer {
  import opened Arithmetic
  import opened Bytes
  import opened Rings

  function Min(a: nat, b: nat): nat {
    if a < b then a else b
  }

  // ----- Bounded queues -----

  datatype Op = Write(data: seq<byte>) | Read(length: nat)

  /** The part of some data that a queue still has room for. */
  function Fitting(q: seq<byte>, capacity: nat, data: seq<byte>): (r: seq<byte>)
    requires |q| <= capacity
    ensures r <= data && |q + r| <= capacity
  {
    data[..Min(|data|, capacity - |q|)]
  }

  /** What a run of operations accepts, what it returns, and what it leaves. */
  datatype Trace = Trace(accepted: seq<byte>, returned: seq<byte>, left: seq<byte>)

  function Run(q: seq<byte>, capacity: nat, ops: seq<Op>): (r: Trace)
    requires |q| <= capacity
    decreases |ops|
  {
    if ops == [] then Trace([], [], q)
    else
      match ops[0]
      case Write(data) =>
        var fit := Fitting(q, capacity, data);
        var t := Run(q + fit, capacity, ops[1..]);
        t.(accepted := fit + t.accepted)
      case Read(length) =>
        var n := Min(length, |q|);
        var t := Run(q[n..], capacity, ops[1..]);
        t.(returned := q[..n] + t.returned)
  }

  /** However writes and reads interleave, bytes come out in the order in which they were accepted: what was
      returned, followed by what is left, is what was there at first, followed by what was accepted. */
  lemma {:induction false} OrderKept(q: seq<byte>, capacity: nat, ops: seq<Op>)
    requires |q| <= capacity
    decreases |ops|
    ensures var t := Run(q, capacity, ops); t.returned + t.left == q + t.accepted && |t.left| <= capacity
  {
    if ops != [] {
      match ops[0]
      case Write(data) =>
        var fit := Fitting(q, capacity, data);
        OrderKept(q + fit, capacity, ops[1..]);
        var t := Run(q + fit, capacity, ops[1..]);
        assert q + fit + t.accepted == q + (fit + t.accepted);
      case Read(length) =>
        var n := Min(length, |q|);
        OrderKept(q[n..], capacity, ops[1..]);
        var t := Run(q[n..], capacity, ops[1..]);
        assert q[..n] + t.returned + t.left == q[..n] + (q[n..] + t.accepted) == q + t.accepted;
    }
  }

  // ----- Code -----

  class Buffer {
    const start: array<byte>
    var current: nat
    var dataLength: nat
    /** The bytes in the buffer, oldest first, and how many bytes were read before them. */
    ghost var contents: seq<byte>
    ghost var base: nat

    ghost predicate Valid()
      reads this, start
    {
      && 0 < start.Length <= 0xFFFF
      && current == Slot(base, start.Length)
      && dataLength == |contents| <= start.Length
      && forall k :: base <= k < base + |contents| ==> start[Slot(k, start.Length)] == contents[k - base]
    }

    constructor (memory: array<byte>)
      requires 0 < memory.Length <= 0xFFFF
      ensures Valid() && start == memory && contents == []
    {
      start := memory;
      current, dataLength, contents, base := 0, 0, [], 0;
    }

    /** MQTT_ExchangeBufferInit */
    method Init()
      requires Valid()
      modifies this
      ensures Valid() && contents == []
    {
      current, dataLength, contents, base := 0, 0, [], 0;
    }

    /** MQTT_ExchangeBufferWrite: puts what fits of the data behind the contents, and always answers with the
        length asked for. */
    method Write(data: seq<byte>) returns (length: nat)
      requires Valid() && |data| <= 0xFFFF
      modifies this, start
      ensures Valid() && contents == old(contents) + Fitting(old(contents), start.Length, data)
      ensures contents == old(contents) + data || |contents| == start.Length
      ensures length == |data|
    {
      hide Slot;
      SlotAdd(base, dataLength, start.Length);
      var dend: nat := (current + dataLength) % start.Length;
      var i: nat := |data|;
      while i > 0
        invariant i <= |data| && Valid() && base == old(base)
        invariant BehindContents(dend)
        invariant contents == old(contents) + data[..|data| - i]
      {
        var stored;
        stored, dend := WriteOne(dend, data[|data| - i]);
        if !stored {
          break;
        }
        i := i - 1;
      }
      length := |data|;
    }

    /** A pointer to the place behind the contents, which may still stand past the end of the array. */
    ghost predicate BehindContents(dend: nat)
      requires start.Length > 0
      reads this`contents, this`base
    {
      dend <= start.Length && (if dend == start.Length then 0 else dend) == Slot(base + |contents|, start.Length)
    }

    /** One turn of the loop of MQTT_ExchangeBufferWrite. */
    method WriteOne(dend: nat, b: byte) returns (stored: bool, next: nat)
      requires Valid() && BehindContents(dend)
      modifies this`dataLength, this`contents, start
      ensures Valid() && BehindContents(next) && (stored <==> old(|contents|) < start.Length)
      ensures contents == if stored then old(contents) + [b] else old(contents)
    {
      hide Slot;
      next := dend;
      if next > start.Length - 1 {
        next := 0;
      }
      Collides();
      if dataLength != 0 && next == current {
        return false, next;
      }
      Append(next, b);
      NextSlot(base + |contents| - 1, start.Length);
      WrapAtEnd(next, start.Length);
      stored, next := true, next + 1;
    }

    /** The place behind the contents is that of the oldest byte exactly when the buffer is empty or full. */
    lemma Collides()
      requires Valid()
      ensures Slot(base + |contents|, start.Length) == current <==> |contents| == 0 || |contents| == start.Length
    {
      if 0 < |contents| < start.Length {
        SlotsApart(base, base + |contents|, start.Length);
      } else if |contents| == start.Length {
        SlotWraps(base, start.Length);
      }
    }

    /** The store in MQTT_ExchangeBufferWrite. */
    method Append(dend: nat, b: byte)
      requires Valid() && |contents| < start.Length && dend == Slot(base + |contents|, start.Length)
      modifies this`dataLength, this`contents, start
      ensures Valid() && contents == old(contents) + [b]
    {
      hide Slot;
      forall k | base <= k < base + |contents| ensures Slot(k, start.Length) != dend {
        SlotsApart(k, base + |contents|, start.Length);
      }
      start[dend] := b;
      dataLength := dataLength + 1;
      contents := contents + [b];
    }

    /** MQTT_ExchangeBufferRead: takes out the oldest bytes. */
    method Read(length: nat) returns (data: seq<byte>)
      requires Valid()
      modifies this
      ensures Valid() && data == old(contents)[..Min(length, |old(contents)|)] && (|data| == length || contents == [])
      ensures contents == old(contents)[Min(length, |old(contents)|)..]
    {
      data := [];
      while |data| < length && dataLength > 0
        invariant Valid() && |data| <= Min(length, |old(contents)|)
        invariant data + contents == old(contents)
        decreases dataLength
      {
        var b := ReadOne();
        data := data + [b];
      }
    }

    /** One turn of the loop of MQTT_ExchangeBufferRead. */
    method ReadOne() returns (b: byte)
      requires Valid() && dataLength > 0
      modifies this
      ensures Valid() && [b] + contents == old(contents) && dataLength == old(dataLength) - 1
    {
      hide Slot;
      b := start[current];
      NextSlot(base, start.Length);
      WrapAtEnd(current, start.Length);
      current := current + 1;
      dataLength := dataLength - 1;
      contents, base := contents[1..], base + 1;
      if current > start.Length - 1 {
        current := 0;
      }
    }

    /** MQTT_ExchangeBufferPeek, whose pointer never wraps: what it copies lies in one piece. */
    method Peek(length: nat) returns (data: seq<byte>)
      requires Valid() && current + Min(length, dataLength) <= start.Length
      ensures data == contents[..Min(length, |contents|)]
    {
      data := [];
      while |data| < length && |data| < dataLength
        invariant |data| <= Min(length, dataLength) && data == contents[..|data|]
      {
        StraightSlot(base, |data|, start.Length);
        data := data + [start[current + |data|]];
      }
    }
  }

  lemma WrapAtEnd(k: nat, n: nat)
    requires k < n
    ensures (k + 1) % n == if k + 1 == n then 0 else k + 1
  {
    if k + 1 < n { Quotient(k + 1, n, 0, k + 1); } else { Quotient(n, n, 1, 0); }
  }

  lemma StraightSlot(k: nat, i: nat, n: nat)
    requires n > 0 && Slot(k, n) + i < n
    ensures Slot(k + i, n) == Slot(k, n) + i
  {
    Quotient(k + i, n, k / n, k % n + i);
  }
}
