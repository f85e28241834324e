/**
 Writing to a device on the two-wire bus (twi0.c and i2c_simple_master.c), for replies that are acknowledged or
 not and a bus without collisions and errors.
 */
module TwiMaster {
  import opened Bytes

  datatype Event = Address(octet: byte) | Data(octet: byte) | Stop

  datatype Reply = Ack | Nack

  // ----- The transcript of a write -----

  /** What follows on the bus once everything so far was acknowledged and `rest` is still to be sent. */
  function DataPhase(rest: seq<byte>, replies: seq<Reply>): seq<Event>
    decreases |rest|, 0
  {
    if rest == [] then [Stop] else [Data(rest[0])] + AfterData(rest[1..], replies)
  }

  /** What follows a data octet. */
  function AfterData(rest: seq<byte>, replies: seq<Reply>): seq<Event>
    decreases |rest|, 1
  {
    if replies == [] then [] else if replies[0] == Nack then [Stop] else DataPhase(rest, replies[1..])
  }

  /** What follows an address octet: it is sent again until it is acknowledged, when the caller asked for that. */
  function AfterAddress(address: byte, retry: bool, payload: seq<byte>, replies: seq<Reply>): seq<Event>
    decreases |replies|
  {
    if replies == [] then []
    else if replies[0] == Ack then DataPhase(payload, replies[1..])
    else if retry then [Address(address)] + AfterAddress(address, retry, payload, replies[1..])
    else [Stop]
  }

  function Transcript(address: byte, retry: bool, payload: seq<byte>, replies: seq<Reply>): seq<Event> {
    [Address(address)] + AfterAddress(address, retry, payload, replies)
  }

  function Sent(octets: seq<byte>): (r: seq<Event>)
    ensures |r| == |octets|
  {
    if octets == [] then [] else [Data(octets[0])] + Sent(octets[1..])
  }

  function Addresses(address: byte, n: nat): (r: seq<Event>)
    ensures |r| == n
  {
    if n == 0 then [] else [Address(address)] + Addresses(address, n - 1)
  }

  /** How many replies of a run refuse the address, and how many octets of the payload are then sent. */
  function Refusals(replies: seq<Reply>): (r: nat)
    ensures r <= |replies|
  {
    if replies == [] || replies[0] == Ack then 0 else 1 + Refusals(replies[1..])
  }

  function Octets(rest: seq<byte>, replies: seq<Reply>): (r: nat)
    ensures r <= |rest|
  {
    if rest == [] then 0
    else if replies == [] || replies[0] == Nack then 1
    else 1 + Octets(rest[1..], replies[1..])
  }

  /** The stop is on the bus: the whole payload was acknowledged, or an octet of it was not. */
  predicate Stopped(rest: seq<byte>, replies: seq<Reply>) {
    rest == [] || (replies != [] && (replies[0] == Nack || Stopped(rest[1..], replies[1..])))
  }

  lemma {:induction false} DataShape(rest: seq<byte>, replies: seq<Reply>)
    ensures var n := Octets(rest, replies);
            && DataPhase(rest, replies) == Sent(rest[..n]) + (if Stopped(rest, replies) then [Stop] else [])
            && (n < |rest| ==> n <= |replies| + 1 && (n <= |replies| ==> replies[n - 1] == Nack))
    decreases |rest|
  {
    var n := Octets(rest, replies);
    if rest == [] {
    } else if replies == [] || replies[0] == Nack {
      assert rest[..1][1..] == [];
    } else {
      DataShape(rest[1..], replies[1..]);
      assert rest[..n][1..] == rest[1..][..n - 1];
    }
  }

  /** All octets sent but the last are acknowledged, and the last is refused or the last of all; the stop follows once
      it is answered. */
  lemma {:induction false} OctetsExactly(rest: seq<byte>, replies: seq<Reply>)
    ensures var n := Octets(rest, replies);
            && (Stopped(rest, replies) <==> n <= |replies|)
            && (forall i :: 0 <= i < n - 1 && i < |replies| ==> replies[i] == Ack)
            && (n == |rest| || n == |replies| + 1 || (0 < n <= |replies| && replies[n - 1] == Nack))
    decreases |rest|
  {
    if rest != [] && replies != [] && replies[0] == Ack {
      OctetsExactly(rest[1..], replies[1..]);
      assert forall i :: 1 <= i < |replies| ==> replies[i] == replies[1..][i - 1];
    }
  }

  /** A write run is one address octet more than were refused, a prefix of the payload, and a stop; the prefix
      is the whole payload unless one of its octets was not acknowledged or the run is not over. */
  lemma {:induction false} WriteShape(address: byte, payload: seq<byte>, replies: seq<Reply>)
    ensures var k := Refusals(replies);
            Transcript(address, true, payload, replies)
            == Addresses(address, k + 1)
               + if k == |replies| then [] else
                   var after := replies[k + 1..];
                   Sent(payload[..Octets(payload, after)]) + if Stopped(payload, after) then [Stop] else []
    decreases |replies|
  {
    hide Octets, Stopped, Sent, DataPhase;
    if replies == [] {
      assert Addresses(address, 1) == [Address(address)] + Addresses(address, 0);
    } else if replies[0] == Ack {
      DataShape(payload, replies[1..]);
      assert Addresses(address, 1) == [Address(address)] + Addresses(address, 0);
    } else {
      WriteShape(address, payload, replies[1..]);
      var k := Refusals(replies);
      assert k == 1 + Refusals(replies[1..]);
      if k < |replies| { assert replies[1..][k..] == replies[k + 1..]; }
    }
  }

  /** The address is refused by the replies before the first that acknowledges it. */
  lemma {:induction false} RefusalsExactly(replies: seq<Reply>)
    ensures var k := Refusals(replies);
            (forall i :: 0 <= i < k ==> replies[i] == Nack) && (k < |replies| ==> replies[k] == Ack)
  {
    if replies != [] && replies[0] == Nack {
      RefusalsExactly(replies[1..]);
      assert forall i :: 1 <= i < |replies| ==> replies[i] == replies[1..][i - 1];
    }
  }

  /** Without the caller's wish to send the address again, its refusal ends the run. */
  lemma WriteOnce(address: byte, payload: seq<byte>, replies: seq<Reply>)
    ensures Transcript(address, false, payload, replies)
            == [Address(address)]
               + if replies == [] then []
                 else if replies[0] == Nack then [Stop]
                 else Sent(payload[..Octets(payload, replies[1..])])
                      + if Stopped(payload, replies[1..]) then [Stop] else []
  {
    if replies != [] { DataShape(payload, replies[1..]); }
  }

  // ----- The driver -----

  datatype State = Idle | Tx | TxEmpty | AddressNack

  /** What the data-complete callback does: stop, or give the driver a second buffer and go on. */
  datatype Callback = ReturnStop | GoOn(buffer: seq<byte>)

  class Master {
    var state: State
    var busy: bool
    var bufferFree: bool
    var addressNackCheck: bool
    var failed: bool
    var address: byte
    var data: seq<byte>
    var dataPtr: nat
    var dataLength: nat
    var dataComplete: Callback
    var restartWrite: bool
    /** What the driver has put on the bus. */
    ghost var log: seq<Event>

    /** The octets that are still to be sent. */
    ghost function Left(): seq<byte>
      requires dataPtr + dataLength <= |data|
      reads `data, `dataPtr, `dataLength, `dataComplete
    {
      data[dataPtr..dataPtr + dataLength] + if dataComplete.GoOn? then dataComplete.buffer else []
    }

    ghost predicate Valid()
      reads this
    {
      && dataPtr + dataLength <= |data| && address < 128
      && (dataComplete.GoOn? ==> |dataComplete.buffer| > 0)
      && (state == Tx ==> dataLength > 0 && !bufferFree)
      && (state == TxEmpty ==> dataLength == 0 && !addressNackCheck)
      && (state == Idle <==> !busy) && (state == Idle ==> !addressNackCheck && !failed)
      && (state == Idle || state == Tx || state == TxEmpty)
    }

    /** What will follow on the bus, for the replies to come. */
    ghost function Ahead(replies: seq<Reply>): seq<Event>
      requires Valid()
      reads this
    {
      if state == Idle then []
      else if addressNackCheck then AfterAddress(address * 2, restartWrite, Left(), replies)
      else AfterData(Left(), replies)
    }

    /** The driver once it is opened and has its buffer and callbacks. */
    constructor (address: byte, buffer: seq<byte>, dataComplete: Callback, restartWrite: bool)
      requires address < 128 && |buffer| > 0 && (dataComplete.GoOn? ==> |dataComplete.buffer| > 0)
      ensures Valid() && state == Idle && log == [] && dataLength > 0 && !bufferFree
      ensures this.address == address && this.restartWrite == restartWrite
      ensures Left() == buffer + if dataComplete.GoOn? then dataComplete.buffer else []
    {
      this.address, this.dataComplete, this.restartWrite := address, dataComplete, restartWrite;
      data, dataPtr, dataLength := buffer, 0, |buffer|;
      state, busy, bufferFree, addressNackCheck, failed := Idle, false, false, false, false;
      log := [];
    }

    /** I2C_0_do_I2C_SEND_ADR_WRITE */
    method SendAdrWrite() returns (next: State)
      requires address < 128
      modifies this`addressNackCheck, this`log
      ensures next == Tx && addressNackCheck && log == old(log) + [Address(address * 2)]
    {
      addressNackCheck := true;
      log := log + [Address(address * 2)];
      next := Tx;
    }

    /** I2C_0_do_I2C_SEND_STOP, after which no failure is remembered */
    method SendStop() returns (next: State)
      modifies this`busy, this`failed, this`log
      ensures next == Idle && !busy && !failed && log == old(log) + [Stop]
    {
      log := log + [Stop];
      busy, failed := false, false;
      next := Idle;
    }

    /** I2C_0_do_I2C_TX, on an acknowledged octet: the next one goes out. */
    method SendData() returns (next: State)
      requires dataLength > 0 && dataPtr + dataLength <= |data|
      modifies this`addressNackCheck, this`dataPtr, this`dataLength, this`log
      ensures !addressNackCheck && log == old(log) + [Data(old(Left()[0]))]
      ensures next == (if dataLength > 0 then Tx else TxEmpty)
      ensures dataPtr + dataLength <= |data| && Left() == old(Left())[1..] && dataLength == old(dataLength) - 1
    {
      addressNackCheck := false;
      log := log + [Data(data[dataPtr])];
      dataPtr, dataLength := dataPtr + 1, dataLength - 1;
      assert Left() == old(Left())[1..];
      next := if dataLength > 0 then Tx else TxEmpty;
    }

    /** I2C_0_set_buffer */
    method SetBuffer(buffer: seq<byte>)
      modifies this`data, this`dataPtr, this`dataLength, this`bufferFree
      ensures old(bufferFree) ==> data == buffer && dataPtr == 0 && dataLength == |buffer| && !bufferFree
      ensures !old(bufferFree) ==> unchanged(this)
    {
      if bufferFree {
        data, dataPtr, dataLength := buffer, 0, |buffer|;
        bufferFree := false;
      }
    }

    /** I2C_0_do_I2C_TX_EMPTY, on an acknowledged octet: the callback stops, or goes on with its buffer. */
    method Complete() returns (next: State)
      requires Valid() && state == TxEmpty
      modifies this
      ensures address == old(address) && restartWrite == old(restartWrite) && state == TxEmpty && !addressNackCheck
      ensures dataPtr + dataLength <= |data| && (next == Tx ==> dataLength > 0 && !bufferFree)
      ensures next == TxEmpty ==> dataLength == 0
      ensures if old(Left()) == [] then next == Idle && !busy && !failed && log == old(log) + [Stop]
              else next != Idle && Left() == old(Left())[1..] && log == old(log) + [Data(old(Left()[0]))]
      ensures dataComplete.GoOn? ==> |dataComplete.buffer| > 0
      ensures next == Idle || next == Tx || next == TxEmpty
      ensures next != Idle ==> busy
    {
      bufferFree := true;
      match dataComplete {
        case ReturnStop =>
          next := SendStop();
        case GoOn(buffer) =>
          next := Continue(buffer);
      }
    }

    /** The callback's buffer takes the place of the one that was sent. */
    method Continue(buffer: seq<byte>) returns (next: State)
      requires bufferFree && |buffer| > 0
      modifies this`data, this`dataPtr, this`dataLength, this`bufferFree, this`dataComplete, this`addressNackCheck,
               this`log
      ensures !bufferFree && !addressNackCheck && dataComplete == ReturnStop && dataPtr + dataLength <= |data|
      ensures next == (if dataLength > 0 then Tx else TxEmpty)
      ensures Left() == buffer[1..] && log == old(log) + [Data(buffer[0])]
    {
      SetBuffer(buffer);
      dataComplete := ReturnStop;
      assert Left() == buffer;
      next := SendData();
    }

    lemma LeftStarts()
      requires dataPtr + dataLength <= |data|
      ensures dataLength > 0 ==> Left() != []
    {}

    /** I2C_0_do_I2C_TX and I2C_0_do_I2C_TX_EMPTY, which both stop when an octet is not acknowledged. */
    method Transmit(reply: Reply)
      requires Valid() && state != Idle && (reply == Nack ==> !addressNackCheck)
      modifies this
      ensures Valid() && address == old(address) && restartWrite == old(restartWrite)
      ensures state != Idle ==> !addressNackCheck
      ensures if reply == Nack || old(Left()) == [] then state == Idle && log == old(log) + [Stop]
              else state != Idle && Left() == old(Left())[1..] && log == old(log) + [Data(old(Left()[0]))]
    {
      hide Left;
      LeftStarts();
      if reply == Nack {
        state := SendStop();
      } else if state == Tx {
        state := SendData();
      } else {
        state := Complete();
      }
    }

    /** I2C_0_master_isr, for a reply without collision or bus error. */
    method Isr(reply: Reply, ghost later: seq<Reply>)
      requires Valid()
      modifies this
      ensures Valid() && address == old(address) && restartWrite == old(restartWrite)
      ensures log + Ahead(later) == old(log) + old(Ahead([reply] + later))
    {
      hide DataPhase, AfterData, AfterAddress, Left;
      ghost var was, left, check := log, Left(), addressNackCheck;
      AfterAddressStep(address * 2, restartWrite, left, reply, later);
      AfterDataStep(left, reply, later);
      if state == Idle {
        busy, failed := false, false;
      } else if addressNackCheck && reply == Nack {
        RefusedAddress();
        assert Left() == left;
        Behind(was, Address(address * 2), AfterAddress(address * 2, restartWrite, left, later));
        Behind(was, Stop, []);
      } else {
        Transmit(reply);
        DataPhaseStep(left, later);
        Behind(was, Stop, []);
        if left != [] { Behind(was, Data(left[0]), AfterData(left[1..], later)); }
      }
    }

    /** I2C_0_do_I2C_DO_ADDRESS_NACK */
    method RefusedAddress()
      requires Valid() && state != Idle && addressNackCheck
      modifies this`state, this`addressNackCheck, this`failed, this`busy, this`log
      ensures Valid() && Left() == old(Left())
      ensures if restartWrite then state == Tx && failed && addressNackCheck && log == old(log) + [Address(address * 2)]
              else state == Idle && log == old(log) + [Stop]
    {
      state := AddressNack;
      addressNackCheck := false;
      failed := true;
      if restartWrite {
        state := SendAdrWrite();
      } else {
        state := SendStop();
      }
    }

    /** I2C_0_master_write, and the interrupts that the replies bring: the bus carries the transcript of a write
        of the two buffers one after the other. At its end the driver is idle again, and reports no failure
        whatever the replies were. */
    method Write(replies: seq<Reply>)
      requires Valid() && state == Idle && log == [] && dataLength > 0 && !bufferFree
      modifies this
      ensures Valid() && log == Transcript(old(address) * 2, old(restartWrite), old(Left()), replies)
      ensures if state == Idle then !busy && !failed else busy
    {
      hide AfterAddress, AfterData, DataPhase, Left;
      busy := true;
      ghost var payload := Left();
      state := SendAdrWrite();
      var i := 0;
      assert replies[0..] == replies;
      assert [] + [Address(address * 2)] == [Address(address * 2)];
      while i < |replies|
        invariant 0 <= i <= |replies| && Valid() && address == old(address) && restartWrite == old(restartWrite)
        invariant log + Ahead(replies[i..]) == Transcript(address * 2, restartWrite, payload, replies)
      {
        assert replies[i..] == [replies[i]] + replies[i + 1..];
        Isr(replies[i], replies[i + 1..]);
        i := i + 1;
      }
      assert replies[|replies|..] == [];
      NothingAhead();
      assert log + [] == log;
    }

    lemma NothingAhead()
      requires Valid()
      ensures Ahead([]) == []
    {}
  }

  lemma Behind(log: seq<Event>, e: Event, rest: seq<Event>)
    ensures log + [e] + rest == log + ([e] + rest)
  {}

  lemma DataPhaseStep(rest: seq<byte>, replies: seq<Reply>)
    ensures DataPhase(rest, replies) == if rest == [] then [Stop] else [Data(rest[0])] + AfterData(rest[1..], replies)
  {}

  lemma AfterDataStep(rest: seq<byte>, reply: Reply, later: seq<Reply>)
    ensures AfterData(rest, [reply] + later) == if reply == Nack then [Stop] else DataPhase(rest, later)
  {
    assert ([reply] + later)[1..] == later;
  }

  lemma AfterAddressStep(address: byte, retry: bool, payload: seq<byte>, reply: Reply, later: seq<Reply>)
    ensures AfterAddress(address, retry, payload, [reply] + later)
            == if reply == Ack then DataPhase(payload, later)
               else if retry then [Address(address)] + AfterAddress(address, retry, payload, later)
               else [Stop]
  {
    assert ([reply] + later)[1..] == later;
  }

  /** i2c_write1ByteRegister and i2c_write2ByteRegister: on the bus, the register's octet and then the data. */
  method WriteRegister(address: byte, reg: byte, data: seq<byte>, replies: seq<Reply>) returns (ghost log: seq<Event>)
    requires address < 128 && |data| > 0
    ensures log == Transcript(address * 2, true, [reg] + data, replies)
  {
    var m := new Master(address, [reg], GoOn(data), true);
    m.Write(replies);
    log := m.log;
  }
}
