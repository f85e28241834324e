/**
 The receive and transmit rings of the serial port (usart2.c), shared with its interrupts. Interrupts may come
 between any two statements of the main code where the source does not mask them.
 */
module UsartRings {
  import opened Bytes
  import opened Rings

  const RX_SIZE: nat := 64
  const TX_SIZE: nat := 32

  class Receiver {
    const rxbuf: array<byte>
    var head: nat
    var tail: nat
    var elements: nat
    /** Every byte the interrupt has stored, in order, and how many of them the tail has passed. */
    ghost var accepted: seq<byte>
    ghost var taken: nat
    /** Every byte that Read has returned, in order. */
    ghost var delivered: seq<byte>

    /** What every statement keeps. The slot at the tail still holds the byte that the tail passed last. */
    ghost predicate Core()
      reads this`head, this`tail, this`accepted, this`taken, rxbuf
    {
      && rxbuf.Length == RX_SIZE
      && taken <= |accepted| < taken + RX_SIZE
      && head == Slot(|accepted|, RX_SIZE) && tail == Slot(taken, RX_SIZE)
      && (forall k :: taken < k <= |accepted| ==> rxbuf[Slot(k, RX_SIZE)] == accepted[k - 1])
      && (taken > 0 ==> rxbuf[tail] == accepted[taken - 1])
    }

    /** What holds between calls of Read: the counter is the number of bytes that wait, and what was delivered
        is what was stored, in the same order. */
    ghost predicate Valid()
      reads this, rxbuf
    {
      Core() && elements == |accepted| - taken && delivered == accepted[..taken]
    }

    constructor ()
      ensures Valid() && fresh(rxbuf) && accepted == [] && delivered == []
    {
      rxbuf := new byte[RX_SIZE](_ => 0);
      head, tail, elements := 0, 0, 0;
      accepted, taken, delivered := [], 0, [];
    }

    /** At rest the counter is the distance from tail to head around the ring. */
    lemma CountIsDistance()
      requires Valid()
      ensures elements == (head - tail) % RX_SIZE
    {
      var a, b := |accepted| / RX_SIZE, taken / RX_SIZE;
      assert head - tail == elements - RX_SIZE * (a - b);
    }

    /** USART_2_default_rx_isr_cb. A byte is dropped exactly when 63 others wait. */
    method RxIsr(data: byte)
      requires Core()
      modifies this`head, this`elements, this`accepted, rxbuf
      ensures Core()
      ensures accepted == if old(|accepted| - taken) < 63 then old(accepted) + [data] else old(accepted)
      ensures elements - |accepted| == old(elements - |accepted|)
    {
      hide Slot;
      NextSlot(|accepted|, RX_SIZE);
      var tmphead := (head + 1) % RX_SIZE;
      if |accepted| - taken < RX_SIZE - 1 {
        SlotsApart(taken, |accepted| + 1, RX_SIZE);
      } else {
        SlotWraps(taken, RX_SIZE);
      }
      if tmphead != tail {
        forall k | taken < k <= |accepted| ensures Slot(k, RX_SIZE) != tmphead {
          SlotsApart(k, |accepted| + 1, RX_SIZE);
        }
        head := tmphead;
        rxbuf[tmphead] := data;
        elements := elements + 1;
        accepted := accepted + [data];
      }
    }

    /** Any number of receive interrupts. */
    method Preempt()
      requires Core()
      modifies this`head, this`elements, this`accepted, rxbuf
      ensures Core() && old(accepted) <= accepted
      ensures elements - |accepted| == old(elements - |accepted|)
    {
      var n: nat := *;
      while n > 0
        invariant Core() && old(accepted) <= accepted
        invariant elements - |accepted| == old(elements - |accepted|)
        decreases n
      {
        var data: byte := *;
        RxIsr(data);
        n := n - 1;
      }
    }

    /** The wait in USART_2_read, giving up after some looks at an empty ring. */
    method Await(looks: nat) returns (ready: bool)
      requires Valid()
      modifies this`head, this`elements, this`accepted, rxbuf
      ensures Valid() && old(accepted) <= accepted && ready == (elements > 0)
      ensures old(elements) > 0 ==> ready
    {
      Preempt();
      var left := looks;
      while elements == 0 && left > 0
        invariant Valid() && old(accepted) <= accepted
        invariant old(elements) > 0 ==> elements > 0
        decreases left
      {
        Preempt();
        left := left - 1;
      }
      ready := elements != 0;
    }

    /** The tail passes one byte, whose slot it now stands on. */
    method PassByte(tmptail: nat)
      requires Core() && taken < |accepted| && tmptail == Slot(taken + 1, RX_SIZE)
      modifies this`tail, this`taken
      ensures Core() && tail == tmptail && taken == old(taken) + 1
    {
      hide Slot;
      tail := tmptail;
      taken := taken + 1;
    }

    /** USART_2_read: a byte returned is the next one in the order in which they were stored. */
    method Read(looks: nat) returns (ready: bool, data: byte)
      requires Valid()
      modifies this, rxbuf
      ensures Valid() && old(accepted) <= accepted
      ensures delivered == if ready then old(delivered) + [data] else old(delivered)
      ensures old(elements) > 0 ==> ready
    {
      hide Slot;
      ready := Await(looks);
      if !ready {
        return false, 0;
      }
      data := Take();
    }

    /** USART_2_read once a byte waits. */
    method Take() returns (data: byte)
      requires Valid() && elements > 0
      modifies this, rxbuf
      ensures Valid() && old(accepted) <= accepted && delivered == old(delivered) + [data]
    {
      hide Slot;
      NextSlot(taken, RX_SIZE);
      var tmptail := (tail + 1) % RX_SIZE;
      Preempt();
      PassByte(tmptail);
      Preempt();
      elements := elements - 1;
      Preempt();
      data := rxbuf[tmptail];
      delivered := delivered + [data];
    }
  }

  class Transmitter {
    const txbuf: array<byte>
    var head: nat
    var tail: nat
    var elements: nat
    /** The data-register-empty interrupt is enabled. */
    var dreie: bool
    /** Every byte that Write has put in the ring, and every byte given to the data register, in order. */
    ghost var queued: seq<byte>
    ghost var sent: seq<byte>

    /** What every statement keeps. */
    ghost predicate Core()
      reads this`tail, this`elements, this`queued, this`sent, txbuf
    {
      && txbuf.Length == TX_SIZE
      && |sent| <= |queued| <= |sent| + TX_SIZE
      && sent == queued[..|sent|]
      && tail == Slot(|sent|, TX_SIZE) && elements == |queued| - |sent|
      && (forall k :: |sent| < k <= |queued| ==> txbuf[Slot(k, TX_SIZE)] == queued[k - 1])
    }

    /** What holds between calls of Write: while bytes wait, the interrupt that sends them is enabled. */
    ghost predicate Valid()
      reads this, txbuf
    {
      Core() && head == Slot(|queued|, TX_SIZE) && (elements > 0 ==> dreie)
    }

    constructor ()
      ensures Valid() && fresh(txbuf) && queued == [] && sent == []
    {
      txbuf := new byte[TX_SIZE](_ => 0);
      head, tail, elements, dreie := 0, 0, 0, false;
      queued, sent := [], [];
    }

    /** USART_2_default_udre_isr_cb. */
    method UdreIsr()
      requires Core() && dreie
      modifies this`tail, this`elements, this`dreie, this`sent
      ensures Core()
      ensures sent == if old(elements) > 0 then old(sent) + [queued[|old(sent)|]] else old(sent)
      ensures dreie <==> elements > 0
    {
      hide Slot;
      if elements != 0 {
        NextSlot(|sent|, TX_SIZE);
        var tmptail := (tail + 1) % TX_SIZE;
        tail := tmptail;
        sent := sent + [txbuf[tmptail]];
        elements := elements - 1;
      }
      if elements == 0 {
        dreie := false;
      }
    }

    /** Any number of data-register-empty interrupts, while they are enabled. */
    method Preempt()
      requires Core()
      modifies this`tail, this`elements, this`dreie, this`sent
      ensures Core() && old(sent) <= sent && elements <= old(elements)
      ensures old(dreie) && elements > 0 ==> dreie
    {
      var n: nat := *;
      while n > 0 && dreie
        invariant Core() && old(sent) <= sent && elements <= old(elements)
        invariant old(dreie) && elements > 0 ==> dreie
        decreases n
      {
        UdreIsr();
        n := n - 1;
      }
    }

    /** The wait in USART_2_write, giving up after some looks at a full ring. */
    method Await(looks: nat) returns (free: bool)
      requires Valid()
      modifies this`tail, this`elements, this`dreie, this`sent
      ensures Valid() && old(sent) <= sent && free == (elements < TX_SIZE)
      ensures old(elements) < TX_SIZE ==> free
    {
      Preempt();
      var left := looks;
      while elements == TX_SIZE && left > 0
        invariant Valid() && old(sent) <= sent
        invariant old(elements) < TX_SIZE ==> elements < TX_SIZE
        decreases left
      {
        Preempt();
        left := left - 1;
      }
      free := elements != TX_SIZE;
    }

    /** The byte in the slot behind the last is counted. */
    method CountByte(tmphead: nat, data: byte)
      requires Core() && elements < TX_SIZE && tmphead == Slot(|queued| + 1, TX_SIZE) && txbuf[tmphead] == data
      modifies this`elements, this`queued
      ensures Core() && queued == old(queued) + [data]
    {
      hide Slot;
      elements := elements + 1;
      queued := queued + [data];
    }

    /** USART_2_write: the byte is put behind all others, and none of those that wait is overwritten. */
    method Write(data: byte, looks: nat) returns (done: bool)
      requires Valid()
      modifies this, txbuf
      ensures Valid() && old(sent) <= sent
      ensures queued == if done then old(queued) + [data] else old(queued)
      ensures old(elements) < 32 ==> done
    {
      hide Slot, Core;
      NextSlot(|queued|, TX_SIZE);
      var tmphead := (head + 1) % TX_SIZE;
      done := Await(looks);
      if !done {
        return;
      }
      Store(tmphead, data);
      Preempt();
      head := tmphead;
      Preempt();
      CountByte(tmphead, data);
      Preempt();
      dreie := true;
      Preempt();
    }

    /** The store in USART_2_write: its slot holds no byte that still waits. */
    method Store(tmphead: nat, data: byte)
      requires Core() && elements < TX_SIZE && tmphead == Slot(|queued| + 1, TX_SIZE)
      modifies txbuf
      ensures Core() && txbuf[tmphead] == data
    {
      hide Slot;
      forall k | |sent| < k <= |queued| ensures Slot(k, TX_SIZE) != tmphead {
        SlotsApart(k, |queued| + 1, TX_SIZE);
      }
      txbuf[tmphead] := data;
    }

    /** Left to itself, the interrupt sends every byte that waits and then switches itself off. */
    method Drain()
      requires Valid()
      modifies this`tail, this`elements, this`dreie, this`sent
      ensures Valid() && sent == queued && !dreie
    {
      while dreie
        invariant Valid()
        decreases elements, dreie
      {
        UdreIsr();
      }
      assert queued[..|queued|] == queued;
    }
  }
}
