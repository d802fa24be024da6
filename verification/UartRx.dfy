/** The UART receive ring of platform/drivers/uart/wm_uart.c: the UART0 interrupt handler
    fills it, tls_uart_read drains it. */
module UartRx {
  import opened CTypes
  import CB = CircBuffer

  const SIZE: nat := 4096
  const CAPACITY: nat := 4093 // the handler stops while CIRC_SPACE is 2 or less

  lemma SizeIsPow2()
    ensures CB.Pow2(12) == SIZE
  {
  }

  lemma SpaceLeft(head: nat, tail: nat)
    requires head < SIZE && tail < SIZE
    ensures CB.Cnt(head, tail, SIZE) == if head >= tail then head - tail else SIZE - tail + head
    ensures CB.Space(head, tail, SIZE) == SIZE - 1 - CB.Cnt(head, tail, SIZE)
  {
    SizeIsPow2();
    CB.CntInRange(head, tail, 12);
    CB.CntPlusSpace(head, tail, 12);
  }

  /** `(i + n) & (TLS_UART_RX_BUF_SIZE - 1)`. */
  function Masked(i: nat, n: nat): (r: nat)
    requires i < SIZE && n < SIZE
    ensures r == CB.Next(i, n, SIZE)
  {
    SizeIsPow2();
    CB.AndNear(i + n, 12);
    CB.And(i + n, SIZE - 1)
  }

  /** How many bytes tls_uart_read delivers, or -1 for an empty request. */
  function ReadResult(unread: nat, readsize: U16): int {
    if readsize < 1 then -1 else if unread >= readsize then readsize else unread
  }

  /** How many bytes fit before CIRC_SPACE is down to 2. */
  function Room(count: nat): nat { Max(0, CAPACITY - count) }

  /** How many of n received bytes the interrupt queues. */
  function Queued(count: nat, n: nat, err: bool, hwFlow: bool): nat {
    if err then 0 else Min(n, Room(count) + if hwFlow then 1 else 0)
  }

  /** The queue after more bytes; one that reaches the size of the ring counts as empty. */
  function Inserted(queue: seq<Byte>, more: seq<Byte>): seq<Byte> {
    if |queue| + |more| < SIZE then queue + more else []
  }

  lemma InsertMore(was: seq<Byte>, fifo: seq<Byte>, n: nat)
    requires n < |fifo|
    ensures was + fifo[..n] + [fifo[n]] == was + fifo[..n + 1]
  {
  }

  /** Bytes are lost in the ring exactly when flow control inserts into one that counts 4095. */
  lemma LapsIff(queue: seq<Byte>, fifo: seq<Byte>, err: bool, hwFlow: bool)
    requires |queue| < SIZE
    ensures var n := Queued(|queue|, |fifo|, err, hwFlow);
      Inserted(queue, fifo[..n]) != queue + fifo[..n] <==> hwFlow && !err && fifo != [] && |queue| == SIZE - 1
  {
    var n := Queued(|queue|, |fifo|, err, hwFlow);
    assert |queue + fifo[..n]| == |queue| + n;
  }

  // ---- interrupts without a read between them

  datatype Irq = Irq(fifo: seq<Byte>, err: bool)

  function QueuedOf(queue: seq<Byte>, q: Irq, hwFlow: bool): (s: seq<Byte>)
    ensures |s| == Queued(|queue|, |q.fifo|, q.err, hwFlow)
  {
    q.fifo[..Queued(|queue|, |q.fifo|, q.err, hwFlow)]
  }

  /** What the ring holds afterwards. */
  function AfterIrqs(queue: seq<Byte>, irqs: seq<Irq>, hwFlow: bool): seq<Byte> {
    if irqs == [] then queue else
      var before := AfterIrqs(queue, irqs[..|irqs| - 1], hwFlow);
      Inserted(before, QueuedOf(before, irqs[|irqs| - 1], hwFlow))
  }

  /** The bytes that the interrupts queued, in order. */
  function Taken(queue: seq<Byte>, irqs: seq<Irq>, hwFlow: bool): seq<Byte> {
    if irqs == [] then [] else
      var front := irqs[..|irqs| - 1];
      Taken(queue, front, hwFlow) + QueuedOf(AfterIrqs(queue, front, hwFlow), irqs[|irqs| - 1], hwFlow)
  }

  /** The interrupt finds more bytes than there is room for, and flow control lets one of them in. */
  predicate Overrun(count: nat, q: Irq, hwFlow: bool) { hwFlow && !q.err && |q.fifo| > Room(count) }

  function Overruns(queue: seq<Byte>, irqs: seq<Irq>, hwFlow: bool): nat {
    if irqs == [] then 0 else
      var front := irqs[..|irqs| - 1];
      Overruns(queue, front, hwFlow)
      + if Overrun(|AfterIrqs(queue, front, hwFlow)|, irqs[|irqs| - 1], hwFlow) then 1 else 0
  }

  /** At some interrupt the ring began to look empty. */
  predicate Lapped(queue: seq<Byte>, irqs: seq<Irq>, hwFlow: bool) {
    irqs != [] &&
      var front := irqs[..|irqs| - 1];
      var before := AfterIrqs(queue, front, hwFlow);
      Lapped(queue, front, hwFlow) || |before| + |QueuedOf(before, irqs[|irqs| - 1], hwFlow)| >= SIZE
  }

  /** One interrupt more, as counts: each overrun brings one byte beyond the capacity. */
  lemma CountStep(count: nat, overruns: nat, q: Irq, hwFlow: bool)
    requires overruns <= 2 && if overruns == 0 then count <= CAPACITY else hwFlow && count == CAPACITY + overruns
    ensures var n := count + Queued(count, |q.fifo|, q.err, hwFlow);
            var o := overruns + if Overrun(count, q, hwFlow) then 1 else 0;
      && (if o == 0 then n <= CAPACITY else n == CAPACITY + o)
      && (n >= SIZE <==> o >= 3)
  {
  }

  /** From a ring within its capacity, over any interrupts: queued bytes are lost if and only if three of them
      overrun; until then the ring holds what it held and what was queued, in order. */
  lemma {:induction false} LapsAfterThree(queue: seq<Byte>, irqs: seq<Irq>, hwFlow: bool)
    requires |queue| <= CAPACITY
    ensures Lapped(queue, irqs, hwFlow) <==> Overruns(queue, irqs, hwFlow) >= 3
    ensures !Lapped(queue, irqs, hwFlow) ==>
      var now, o := AfterIrqs(queue, irqs, hwFlow), Overruns(queue, irqs, hwFlow);
      && now == queue + Taken(queue, irqs, hwFlow)
      && (if o == 0 then |now| <= CAPACITY else hwFlow && |now| == CAPACITY + o)
  {
    if irqs == [] {
      assert queue + [] == queue;
    } else {
      var front, q := irqs[..|irqs| - 1], irqs[|irqs| - 1];
      LapsAfterThree(queue, front, hwFlow);
      hide Queued, Room, QueuedOf;
      if !Lapped(queue, front, hwFlow) {
        var before := AfterIrqs(queue, front, hwFlow);
        CountStep(|before|, Overruns(queue, front, hwFlow), q, hwFlow);
        var t, more := Taken(queue, front, hwFlow), QueuedOf(before, q, hwFlow);
        assert queue + t + more == queue + (t + more);
      }
    }
  }

  class Ring {
    const buf: array<Byte>
    var head: nat
    var tail: nat

    ghost predicate Valid()
      reads this
    {
      buf.Length == SIZE && head < SIZE && tail < SIZE
    }

    /** The bytes received and not yet read, oldest first. */
    ghost function Contents(): seq<Byte>
      requires Valid()
      reads this, buf
    {
      CB.Pending(buf[..], head, tail)
    }

    constructor ()
      ensures Valid() && fresh(buf) && Contents() == []
    {
      buf := new Byte[SIZE];
      head, tail := 0, 0;
    }

    /** Insert one byte, full or not: on a ring that counts 4095 it makes all of them disappear. */
    method Insert(ch: Byte)
      requires Valid()
      modifies this`head, buf
      ensures Valid()
      ensures Contents() == Inserted(old(Contents()), [ch])
    {
      if |Contents()| + 1 < SIZE {
        CB.PendingPush(buf[..], head, tail, ch);
      } else {
        CB.PendingLapped(buf[..], head, tail, ch);
      }
      ghost var was := buf[..];
      buf[head] := ch;
      assert buf[..] == was[head := ch];
      head := Masked(head, 1);
    }

    /** The UART0 interrupt's receive loop over the bytes of the FIFO. Without flow control they are queued
        while the ring has room for more than two; with it, one more is queued and the loop ends (the call
        that should then switch the receiver off acts on UART1 only). After a receive error nothing is queued.
        The callback is told the number queued, or 1 for every byte. */
    method Receive(fifo: seq<Byte>, err: bool, hwFlow: bool, byteCallback: bool) returns (rxlen: nat, reports: seq<nat>)
      requires Valid()
      modifies this`head, buf
      ensures Valid()
      ensures rxlen == Queued(old(|Contents()|), |fifo|, err, hwFlow)
      ensures Contents() == Inserted(old(Contents()), fifo[..rxlen])
      ensures reports == if byteCallback then seq(rxlen, _ => 1) else [rxlen]
      ensures err ==> rxlen == 0 && Contents() == old(Contents())
      ensures !err && !hwFlow ==> rxlen == |fifo| || old(|Contents()|) + rxlen >= CAPACITY
      ensures !err && !hwFlow && rxlen > 0 ==> |Contents()| <= CAPACITY
      ensures !err && hwFlow ==> rxlen == |fifo| || (rxlen >= 1 && old(|Contents()|) + rxlen > CAPACITY)
      ensures !err && hwFlow && rxlen >= 2 ==> old(|Contents()|) + rxlen <= CAPACITY + 1
    {
      hide CB.Pending, Ring.Contents;
      rxlen, reports := 0, [];
      ghost var was := Contents();
      CountIs();
      assert fifo[..0] == [] && was + [] == was;
      var i, last := 0, false;
      while i < |fifo|
        invariant Valid() && i <= |fifo| && !last
        invariant rxlen == if err then 0 else i
        invariant err || rxlen <= Room(|was|)
        invariant Contents() == was + fifo[..rxlen] && |Contents()| < SIZE
        invariant reports == if byteCallback then seq(rxlen, _ => 1) else []
      {
        var ch := fifo[i];
        i := i + 1;
        if err {
          continue;
        }
        InsertMore(was, fifo, rxlen);
        CountIs();
        if CB.Space(head, tail, SIZE) <= 2 {
          if !hwFlow {
            break;
          }
          last := true;
        }
        Insert(ch);
        rxlen := rxlen + 1;
        if byteCallback {
          reports := reports + [1];
        }
        if last {
          break;
        }
      }
      if !byteCallback {
        reports := reports + [rxlen];
      }
    }

    /** Any interrupts, one after the other without a read between them. */
    method ReceiveAll(irqs: seq<Irq>, hwFlow: bool)
      requires Valid()
      modifies this`head, buf
      ensures Valid() && Contents() == AfterIrqs(old(Contents()), irqs, hwFlow)
      ensures old(|Contents()|) <= CAPACITY && Overruns(old(Contents()), irqs, hwFlow) <= 2 ==>
        Contents() == old(Contents()) + Taken(old(Contents()), irqs, hwFlow)
    {
      hide CB.Pending, Ring.Contents, Queued;
      ghost var was := Contents();
      for i := 0 to |irqs|
        invariant Valid() && Contents() == AfterIrqs(was, irqs[..i], hwFlow)
      {
        assert irqs[..i + 1][..i] == irqs[..i];
        var _, _ := Receive(irqs[i].fifo, irqs[i].err, hwFlow, false);
      }
      assert irqs[..|irqs|] == irqs;
      if |was| <= CAPACITY {
        LapsAfterThree(was, irqs, hwFlow);
      }
    }

    /** CIRC_SPACE follows the count of the queued bytes. */
    lemma CountIs()
      requires Valid()
      ensures |Contents()| < SIZE && CB.Space(head, tail, SIZE) == SIZE - 1 - |Contents()|
    {
      SpaceLeft(head, tail);
    }

    /** The one or two MEMCPYs of tls_uart_read. */
    method CopyOut(dst: array<Byte>, at: nat, n: nat)
      requires Valid() && dst != buf
      requires n <= |Contents()| && at + n <= dst.Length
      modifies dst
      ensures dst[..] == old(dst[..])[..at] + Contents()[..n] + old(dst[..])[at + n..]
    {
      if tail + n > SIZE {
        var copylen := SIZE - tail;
        forall i | 0 <= i < copylen { dst[at + i] := buf[tail + i]; }
        forall i | 0 <= i < n - copylen { dst[at + copylen + i] := buf[i]; }
      } else {
        forall i | 0 <= i < n { dst[at + i] := buf[tail + i]; }
      }
    }

    /** tls_uart_read: -1 for a zero-length request, else the oldest bytes, in order and removed,
        however the request straddles the end of the ring. */
    method Read(dst: array<Byte>, at: nat, readsize: U16) returns (ret: int)
      requires Valid() && dst != buf
      requires at + readsize <= dst.Length
      modifies this`tail, dst
      ensures Valid()
      ensures ret == ReadResult(old(|Contents()|), readsize)
      ensures readsize >= 1 ==> 0 <= ret <= readsize && ret + |Contents()| == old(|Contents()|)
      ensures readsize >= 1 ==> ret == readsize || Contents() == []
      ensures readsize == 0 ==> ret == -1
      ensures readsize == 0 ==> Contents() == old(Contents()) && dst[..] == old(dst[..])
      ensures readsize > 0 ==>
        && Contents() == old(Contents())[ret..]
        && dst[..] == old(dst[..])[..at] + old(Contents())[..ret] + old(dst[..])[at + ret..]
    {
      if readsize < 1 {
        return -1;
      }
      SpaceLeft(head, tail);
      var dataCnt := CB.Cnt(head, tail, SIZE);
      var buflen: nat := if dataCnt >= readsize then readsize else dataCnt;
      CopyOut(dst, at, buflen);
      CB.PendingPop(buf[..], head, tail, buflen);
      tail := Masked(tail, buflen);
      ret := buflen;
    }
  }

  /** Flow control, no reads, 65 interrupts with a full FIFO of 63 bytes and two more with one byte each: the
      ring has taken 4096 bytes and looks empty. */
  method RingLaps() returns (r: Ring, taken: nat)
    ensures r.Valid() && r.Contents() == [] && taken == SIZE
  {
    r := new Ring();
    hide CB.Pending, Ring.Contents;
    var full: seq<Byte> := seq(63, _ => 0);
    taken := 0;
    for i := 0 to 65
      invariant r.Valid() && fresh(r) && fresh(r.buf)
      invariant |r.Contents()| == taken == if i < 65 then 63 * i else 4094
    {
      var rxlen, _ := r.Receive(full, false, true, false);
      taken := taken + rxlen;
    }
    var one, _ := r.Receive([0], false, true, false);
    var two, _ := r.Receive([0], false, true, false);
    taken := taken + one + two;
  }
}
