/** The wake-up protocol between the UART callback demo_console_rx and the message loop of
    demo_console_task (demo/console/wm_demo_console_task.c), over every interleaving of the
    callback with the task's statements. */
module ConsoleProtocol {
  import opened CTypes
  import UartRx

  const CREDITS: nat := 3
  const QUEUE_SIZE: nat := 32
  const RX_BUF: nat := 513 // bytes allocated for rx_buf

  /** The task's next statement. */
  datatype Pc =
    | Waiting              // tls_os_queue_receive
    | Woken                // tls_uart_read
    | GotBytes(ret: nat)   // rx_data_len -= ret, rptr += ret
    | Executing            // demo_cmd_execute, and rptr = 0 unless the command is not complete yet
    | Testing              // if (MsgNum)
    | Crediting            // MsgNum--

  /** unread: bytes in the UART ring; owed: rx_data_len; queue: messages in demo_q. */
  datatype State = State(unread: nat, owed: int, msgNum: Byte, queue: nat, pc: Pc, rptr: U16)

  /** The interrupt queues n bytes and reports them, or the console task executes one statement; `short`
      is what demo_cmd_execute says of the text so far, and matters to that statement only. */
  datatype Event = Rx(n: nat) | Task(short: bool)

  const INIT := State(0, 0, 0, 0, Waiting, 0)

  predicate Enabled(s: State, e: Event) {
    match e
    case Rx(n) => s.unread + n < UartRx.SIZE
    case Task(_) => !(s.pc.Waiting? && s.queue == 0)
  }

  function OnRx(s: State, n: nat): State {
    var s := s.(unread := s.unread + n, owed := s.owed + n);
    if s.msgNum < CREDITS then
      s.(msgNum := s.msgNum + 1, queue := if s.queue < QUEUE_SIZE then s.queue + 1 else s.queue)
    else s
  }

  function OnTask(s: State, short: bool): State
    requires Enabled(s, Task(short))
  {
    match s.pc
    case Waiting => s.(queue := s.queue - 1, pc := Woken)
    case Woken =>
      var ret := UartRx.ReadResult(s.unread, ToU16(s.owed));
      if ret <= 0 then s.(pc := Waiting) else s.(unread := s.unread - ret, pc := GotBytes(ret))
    case GotBytes(ret) => s.(owed := s.owed - ret, rptr := ToU16(s.rptr as int + ret), pc := Executing)
    case Executing => s.(rptr := if short then s.rptr else 0, pc := Testing)
    case Testing => s.(pc := if s.msgNum != 0 then Crediting else Waiting)
    case Crediting => s.(msgNum := ToByte(s.msgNum - 1), pc := Waiting)
  }

  function Apply(s: State, e: Event): State
    requires Enabled(s, e)
  {
    match e
    case Rx(n) => OnRx(s, n)
    case Task(short) => OnTask(s, short)
  }

  /** The state after a schedule, or None if some event was not possible when its turn came. */
  function Exec(es: seq<Event>): Option<State> {
    if es == [] then Some(INIT) else
      match Exec(es[..|es| - 1])
      case None => None
      case Some(s) => if Enabled(s, es[|es| - 1]) then Some(Apply(s, es[|es| - 1])) else None
  }

  /** A message consumed by a read that returned nothing: its credit is never given back. */
  predicate EmptyRead(s: State, e: Event) {
    e.Task? && s.pc.Woken? && UartRx.ReadResult(s.unread, ToU16(s.owed)) <= 0
  }

  function Lost(es: seq<Event>): nat {
    if es == [] then 0 else
      var front := es[..|es| - 1];
      Lost(front) + if Exec(front).Some? && EmptyRead(Exec(front).value, es[|es| - 1]) then 1 else 0
  }

  predicate EveryCallbackBringsBytes(es: seq<Event>) {
    forall e <- es :: e.Rx? ==> e.n >= 1
  }

  predicate CallbacksAllowed(es: seq<Event>, zeroLength: bool) {
    zeroLength || EveryCallbackBringsBytes(es)
  }

  function Busy(s: State): nat { if s.pc.Waiting? then 0 else 1 }

  function InHand(s: State): nat { if s.pc.GotBytes? then s.pc.ret else 0 }

  /** Every credit is on the queue, in the console task's hands or lost, and rx_data_len is exact. */
  ghost predicate Accounted(s: State, lost: nat) {
    && s.msgNum == s.queue + Busy(s) + lost <= CREDITS
    && s.owed == s.unread + InHand(s)
    && s.unread < UartRx.SIZE
    && (s.pc.GotBytes? ==> s.pc.ret >= 1)
  }

  ghost predicate Live(s: State, lost: nat) {
    && lost <= 2
    && (s.unread == 0 ==> s.queue + lost + (if s.pc.Woken? then 1 else 0) <= 2)
    && (s.unread > 0 && s.queue == 0 && !s.pc.Woken? ==> lost == 2)
  }

  lemma ReadTakesAll(s: State, lost: nat)
    requires Accounted(s, lost) && s.pc.Woken?
    ensures UartRx.ReadResult(s.unread, ToU16(s.owed)) == if s.unread == 0 then -1 else s.unread
  {
  }

  lemma RxAccounted(s: State, lost: nat, n: nat)
    requires Accounted(s, lost) && Enabled(s, Rx(n))
    ensures Accounted(OnRx(s, n), lost)
  {
  }

  lemma TaskAccounted(s: State, lost: nat, short: bool)
    requires Accounted(s, lost) && Enabled(s, Task(short))
    ensures Accounted(OnTask(s, short), lost + if EmptyRead(s, Task(short)) then 1 else 0)
  {
    hide UartRx.ReadResult, ToU16;
    if s.pc.Woken? {
      ReadTakesAll(s, lost);
    }
  }

  lemma AccountedStep(s: State, lost: nat, e: Event)
    requires Accounted(s, lost) && Enabled(s, e)
    ensures Accounted(Apply(s, e), lost + if EmptyRead(s, e) then 1 else 0)
    ensures e.Task? && s.pc.Woken? && s.unread > 0 ==> Apply(s, e).unread == 0
    ensures EmptyRead(s, e) ==> s.unread == 0
  {
    hide Accounted, UartRx.ReadResult, ToU16;
    match e {
      case Rx(n) => RxAccounted(s, lost, n);
      case Task(short) =>
        TaskAccounted(s, lost, short);
        if s.pc.Woken? {
          ReadTakesAll(s, lost);
        }
    }
  }

  lemma LiveStep(s: State, lost: nat, e: Event)
    requires Accounted(s, lost) && Live(s, lost) && Enabled(s, e)
    requires e.Rx? ==> e.n >= 1
    ensures Live(Apply(s, e), lost + if EmptyRead(s, e) then 1 else 0)
  {
    AccountedStep(s, lost, e);
    hide UartRx.ReadResult, ToU16, ToByte;
  }

  /** In every run, zero-length callbacks included: messages <= MsgNum <= 3, MsgNum is exactly the
      messages queued, the one being handled and the credits lost, and every read with bytes owed
      takes all of them. */
  lemma {:induction false} CreditsAreAccounted(es: seq<Event>)
    requires Exec(es).Some?
    ensures Accounted(Exec(es).value, Lost(es))
    ensures Exec(es).value.queue <= Exec(es).value.msgNum <= CREDITS < QUEUE_SIZE
  {
    if es != [] {
      var front := es[..|es| - 1];
      CreditsAreAccounted(front);
      AccountedStep(Exec(front).value, Lost(front), es[|es| - 1]);
    }
  }

  /** In every run whose callbacks all bring bytes, at most two credits are ever lost. */
  lemma {:induction false} AtMostTwoCreditsLost(es: seq<Event>)
    requires Exec(es).Some? && EveryCallbackBringsBytes(es)
    ensures Live(Exec(es).value, Lost(es)) && Lost(es) <= 2
  {
    if es != [] {
      var front := es[..|es| - 1];
      AtMostTwoCreditsLost(front);
      CreditsAreAccounted(front);
      LiveStep(Exec(front).value, Lost(front), es[|es| - 1]);
    }
  }

  /** So an idle console with an empty queue is always woken by the next callback. */
  lemma NextCallbackWakes(es: seq<Event>, n: nat)
    requires Exec(es).Some? && EveryCallbackBringsBytes(es)
    requires Exec(es).value.pc.Waiting? && Exec(es).value.queue == 0
    ensures OnRx(Exec(es).value, n).queue == 1
  {
    hide Exec, Lost, EveryCallbackBringsBytes, OnRx, Accounted, Live;
    AtMostTwoCreditsLost(es);
    CreditsAreAccounted(es);
    IdleWakes(Exec(es).value, Lost(es), n);
  }

  lemma IdleWakes(s: State, lost: nat, n: nat)
    requires Accounted(s, lost) && Live(s, lost) && s.pc.Waiting? && s.queue == 0
    ensures OnRx(s, n).queue == 1 && s.msgNum < CREDITS
  {
  }

  /** Bytes in the ring, no message queued, and the console task not about to read. */
  predicate Stranded(s: State) {
    s.unread > 0 && s.queue == 0 && !s.pc.Woken?
  }

  /** Received bytes always have a wake-up in flight, unless exactly two credits were lost earlier. */
  lemma StrandedOnlyAfterTwoLosses(es: seq<Event>)
    requires Exec(es).Some? && EveryCallbackBringsBytes(es)
    requires Stranded(Exec(es).value)
    ensures Lost(es) == 2
  {
    AtMostTwoCreditsLost(es);
  }

  /** Some run, with or without zero-length callbacks, ends in s having lost that many credits. */
  ghost predicate Reaches(zeroLength: bool, s: State, lost: nat) {
    exists es :: CallbacksAllowed(es, zeroLength) && Exec(es) == Some(s) && Lost(es) == lost
  }

  lemma ReachesInit(zeroLength: bool)
    ensures Reaches(zeroLength, INIT, 0)
  {
    assert CallbacksAllowed([], zeroLength) && Exec([]) == Some(INIT) && Lost([]) == 0;
  }

  lemma Extend(zeroLength: bool, s: State, lost: nat, e: Event)
    requires Reaches(zeroLength, s, lost) && Enabled(s, e)
    requires e == Rx(0) ==> zeroLength
    ensures Reaches(zeroLength, Apply(s, e), lost + if EmptyRead(s, e) then 1 else 0)
  {
    var es :| CallbacksAllowed(es, zeroLength) && Exec(es) == Some(s) && Lost(es) == lost;
    assert (es + [e])[..|es|] == es;
    assert CallbacksAllowed(es + [e], zeroLength);
  }

  /** A message with bytes to read, handled undisturbed: receive and read, ... */
  lemma TakeAll(s: State, lost: nat)
    requires Reaches(false, s, lost) && s.pc.Waiting? && s.queue > 0
    requires 0 < s.unread == s.owed < UartRx.SIZE
    ensures Reaches(false, s.(unread := 0, queue := s.queue - 1, pc := GotBytes(s.owed)), lost)
  {
    hide Reaches;
    Extend(false, s, lost, Task(false));
    Extend(false, s.(queue := s.queue - 1, pc := Woken), lost, Task(false));
  }

  /** ... then settle the counters and give the credit back. */
  lemma Settle(s: State, lost: nat)
    requires Reaches(false, s, lost) && s.pc.GotBytes? && s.msgNum > 0
    ensures Reaches(false, s.(owed := s.owed - s.pc.ret, msgNum := s.msgNum - 1, pc := Waiting, rptr := 0), lost)
  {
    hide Reaches;
    var t := s.(owed := s.owed - s.pc.ret, rptr := ToU16(s.rptr as int + s.pc.ret), pc := Executing);
    Extend(false, s, lost, Task(false));
    Extend(false, t, lost, Task(false));
    Extend(false, t.(rptr := 0, pc := Testing), lost, Task(false));
    Extend(false, t.(rptr := 0, pc := Crediting), lost, Task(false));
  }

  /** A message with nothing to read. */
  lemma LoseOne(zeroLength: bool, s: State, lost: nat)
    requires Reaches(zeroLength, s, lost) && s.pc.Waiting? && s.queue > 0 && s.unread == s.owed == 0
    ensures Reaches(zeroLength, s.(queue := s.queue - 1), lost + 1)
  {
    hide Reaches;
    Extend(zeroLength, s, lost, Task(false));
    Extend(zeroLength, s.(queue := s.queue - 1, pc := Woken), lost, Task(false));
  }

  lemma Burst(zeroLength: bool, n: nat)
    requires n == 0 ==> zeroLength
    requires n < 1000
    ensures Reaches(zeroLength, State(3 * n, 3 * n, 3, 3, Waiting, 0), 0)
  {
    hide Reaches;
    ReachesInit(zeroLength);
    Extend(zeroLength, INIT, 0, Rx(n));
    Extend(zeroLength, State(n, n, 1, 1, Waiting, 0), 0, Rx(n));
    Extend(zeroLength, State(2 * n, 2 * n, 2, 2, Waiting, 0), 0, Rx(n));
  }

  /** Three one-byte callbacks before the console task runs: the first message reads everything, the other
      two are lost; a byte that arrives while the next message is being handled is then stranded. */
  lemma StrandingHappens()
    ensures Stranded(State(1, 1, 2, 0, Waiting, 0)) && Reaches(false, State(1, 1, 2, 0, Waiting, 0), 2)
  {
    hide Reaches;
    Burst(false, 1);
    TakeAll(State(3, 3, 3, 3, Waiting, 0), 0);
    Settle(State(0, 3, 3, 2, GotBytes(3), 0), 0);
    LoseOne(false, State(0, 0, 2, 2, Waiting, 0), 0);
    LoseOne(false, State(0, 0, 2, 1, Waiting, 0), 1);
    Extend(false, State(0, 0, 2, 0, Waiting, 0), 2, Rx(1));
    TakeAll(State(1, 1, 3, 1, Waiting, 0), 2);
    Extend(false, State(0, 1, 3, 0, GotBytes(1), 0), 2, Rx(1));
    Settle(State(1, 2, 3, 0, GotBytes(1), 0), 2);
  }

  // ---- zero-length callbacks

  /** All three credits gone, nothing queued, the console task asleep. */
  predicate Wedged(s: State) {
    s.msgNum == CREDITS && s.queue == 0 && s.pc.Waiting?
  }

  /** A wedged console stays wedged whatever is received afterwards. */
  lemma {:induction false} WedgedForever(es: seq<Event>, more: seq<Event>)
    requires Exec(es).Some? && Wedged(Exec(es).value)
    requires Exec(es + more).Some?
    ensures Wedged(Exec(es + more).value)
  {
    if more == [] {
      assert es + more == es;
    } else {
      var front := more[..|more| - 1];
      assert (es + more)[..|es + more| - 1] == es + front;
      WedgedForever(es, front);
    }
  }

  ghost predicate CanWedge(zeroLength: bool) {
    exists s, lost :: Reaches(zeroLength, s, lost) && Wedged(s)
  }

  /** The console can go deaf exactly when the interrupt may report zero bytes. */
  lemma WedgesIffZeroLengthReports(zeroLength: bool)
    ensures CanWedge(zeroLength) <==> zeroLength
  {
    if zeroLength {
      Burst(true, 0);
      LoseOne(true, State(0, 0, 3, 3, Waiting, 0), 0);
      LoseOne(true, State(0, 0, 3, 2, Waiting, 0), 1);
      LoseOne(true, State(0, 0, 3, 1, Waiting, 0), 2);
      assert Wedged(State(0, 0, 3, 0, Waiting, 0));
    } else {
      forall es | CallbacksAllowed(es, false) && Exec(es).Some? ensures !Wedged(Exec(es).value) {
        AtMostTwoCreditsLost(es);
        CreditsAreAccounted(es);
      }
    }
  }

  // ---- the receive buffer

  /** The read about to happen would store past the end of rx_buf. */
  predicate WritesBeyond(s: State) {
    s.pc.Woken? && s.rptr as int + UartRx.ReadResult(s.unread, ToU16(s.owed)) > RX_BUF
  }

  /** Bytes of the command so far: stored, being added, and still in the ring. */
  function Backlog(s: State): nat { s.rptr + InHand(s) + s.unread }

  /** The sender waits: it never sends more than rx_buf has room for next to the unfinished command. */
  predicate Paced(es: seq<Event>) {
    if es == [] then true else
      var front, e := es[..|es| - 1], es[|es| - 1];
      Paced(front) && (e.Rx? && Exec(front).Some? ==> Backlog(Exec(front).value) + e.n <= RX_BUF)
  }

  lemma PacedStep(s: State, lost: nat, e: Event)
    requires Accounted(s, lost) && Enabled(s, e) && Backlog(s) <= RX_BUF
    requires e.Rx? ==> Backlog(s) + e.n <= RX_BUF
    ensures Backlog(Apply(s, e)) <= RX_BUF
  {
    if e.Task? && s.pc.Woken? {
      ReadTakesAll(s, lost);
    }
    hide UartRx.ReadResult, ToByte;
  }

  /** What a read would store, and so where it ends, is known from the counters. */
  lemma BeyondIsBacklog(s: State, lost: nat)
    requires Accounted(s, lost) && s.pc.Woken? && (s.unread == 0 ==> s.rptr <= RX_BUF)
    ensures WritesBeyond(s) <==> Backlog(s) > RX_BUF
  {
    ReadTakesAll(s, lost);
    hide UartRx.ReadResult, ToU16;
  }

  /** With a sender that waits, no read ever goes past the end of the buffer. */
  lemma {:induction false} PacedStaysInside(es: seq<Event>)
    requires Exec(es).Some? && Paced(es)
    ensures Backlog(Exec(es).value) <= RX_BUF && !WritesBeyond(Exec(es).value)
  {
    hide Accounted, Apply, Enabled, UartRx.ReadResult, ToU16, Lost;
    CreditsAreAccounted(es);
    var t := Exec(es).value;
    if es != [] {
      var front, e := es[..|es| - 1], es[|es| - 1];
      CreditsAreAccounted(front);
      PacedStaysInside(front);
      PacedStep(Exec(front).value, Lost(front), e);
    }
    if t.pc.Woken? {
      BeyondIsBacklog(t, Lost(es));
    }
  }

  lemma WokenBeyond(s: State, lost: nat, n: nat, short: bool)
    requires Accounted(s, lost) && s.pc.Waiting? && s.queue == 0 && s.msgNum < CREDITS
    requires n >= 1 && Enabled(s, Rx(n))
    ensures Enabled(OnRx(s, n), Task(short))
    ensures WritesBeyond(OnTask(OnRx(s, n), short)) <==> Backlog(s) + n > RX_BUF
  {
    var t := s.(unread := s.unread + n, owed := s.owed + n, msgNum := s.msgNum + 1, pc := Woken);
    assert OnTask(OnRx(s, n), short) == t;
    assert Accounted(t, lost);
    hide Accounted;
    BeyondIsBacklog(t, lost);
  }

  /** For an idle console the condition is exact: the read that answers a callback of n bytes stores past
      the end if and only if the unfinished command, the unread bytes and n exceed the buffer. */
  lemma BeyondIff(es: seq<Event>, n: nat, short: bool)
    requires Exec(es).Some? && EveryCallbackBringsBytes(es) && n >= 1
    requires Exec(es).value.pc.Waiting? && Exec(es).value.queue == 0 && Enabled(Exec(es).value, Rx(n))
    ensures var s := Exec(es).value;
      && Enabled(OnRx(s, n), Task(short))
      && (WritesBeyond(OnTask(OnRx(s, n), short)) <==> Backlog(s) + n > RX_BUF)
  {
    hide Exec, Lost, EveryCallbackBringsBytes, WritesBeyond, OnRx, OnTask, Backlog;
    CreditsAreAccounted(es);
    AtMostTwoCreditsLost(es);
    IdleWakes(Exec(es).value, Lost(es), n);
    WokenBeyond(Exec(es).value, Lost(es), n, short);
  }

  /** k interrupts with a full FIFO of 63 bytes each, before the console task runs. */
  function Flooded(k: nat): State {
    State(63 * k, 63 * k, if k < 3 then k else 3, if k < 3 then k else 3, Waiting, 0)
  }

  lemma {:induction false} Flood(k: nat)
    requires k <= 9
    ensures Reaches(false, Flooded(k), 0)
  {
    hide Reaches, OnRx, Exec, Lost, OnTask;
    if k == 0 {
      ReachesInit(false);
    } else {
      Flood(k - 1);
      FloodStep(k - 1);
      Extend(false, Flooded(k - 1), 0, Rx(63));
    }
  }

  lemma FloodStep(k: nat)
    ensures OnRx(Flooded(k), 63) == Flooded(k + 1)
  {
  }

  /** Nine of them are enough. */
  lemma BeyondHappens()
    ensures Reaches(false, State(567, 567, 3, 2, Woken, 0), 0) && WritesBeyond(State(567, 567, 3, 2, Woken, 0))
  {
    Flood(9);
    hide Reaches;
    Extend(false, Flooded(9), 0, Task(false));
  }

  // ---- the pieces of a command

  /** A read stored len bytes from that place of rx_buf on. */
  datatype Piece = Piece(at: nat, len: nat)

  /** What the reads since the last finished command stored. */
  function Pieces(es: seq<Event>): seq<Piece> {
    if es == [] then [] else
      var front, e := es[..|es| - 1], es[|es| - 1];
      match Exec(front)
      case None => []
      case Some(s) =>
        var ret := UartRx.ReadResult(s.unread, ToU16(s.owed));
        if e.Task? && s.pc.Woken? && ret > 0 then Pieces(front) + [Piece(s.rptr, ret)]
        else if e.Task? && s.pc.Executing? && !e.short then []
        else Pieces(front)
  }

  function Total(ps: seq<Piece>): nat {
    if ps == [] then 0 else Total(ps[..|ps| - 1]) + ps[|ps| - 1].len
  }

  /** Each piece starts where the ones before it end, modulo 2^16. */
  predicate Tiled(ps: seq<Piece>) {
    ps == [] || (Tiled(ps[..|ps| - 1]) && ps[|ps| - 1].at == ToU16(Total(ps[..|ps| - 1])))
  }

  /** ... and rptr is where they all end; a piece just read is not counted in rptr yet. */
  ghost predicate InOrder(ps: seq<Piece>, s: State) {
    Tiled(ps) && InHand(s) <= Total(ps) && s.rptr == ToU16(Total(ps) - InHand(s))
  }

  lemma OnePieceMore(ps: seq<Piece>, p: Piece)
    requires Tiled(ps) && p.at == ToU16(Total(ps))
    ensures Tiled(ps + [p]) && Total(ps + [p]) == Total(ps) + p.len
  {
    assert (ps + [p])[..|ps|] == ps;
  }

  lemma PieceStep(s: State, lost: nat, e: Event, ps: seq<Piece>)
    requires Accounted(s, lost) && Enabled(s, e) && InOrder(ps, s)
    ensures var ret := UartRx.ReadResult(s.unread, ToU16(s.owed));
      var after := if e.Task? && s.pc.Woken? && ret > 0 then ps + [Piece(s.rptr, ret)]
                   else if e.Task? && s.pc.Executing? && !e.short then [] else ps;
      InOrder(after, Apply(s, e))
  {
    hide UartRx.ReadResult, ToU16, ToByte, Tiled, Total;
    if e.Task? {
      match s.pc {
        case Woken =>
          ReadTakesAll(s, lost);
          if s.unread > 0 {
            OnePieceMore(ps, Piece(s.rptr, s.unread));
          }
        case GotBytes(ret) => AddsUp(Total(ps) - ret, ret);
        case Executing => NoPieces();
        case _ =>
      }
    }
  }

  lemma AddsUp(a: int, b: int)
    ensures ToU16(ToU16(a) as int + b) == ToU16(a + b)
  {
  }

  lemma NoPieces()
    ensures Tiled([]) && Total([]) == 0 && ToU16(0) == 0
  {
  }

  /** In every run: rptr is, modulo 2^16, the number of bytes read since the last finished command, and each read
      was stored right behind the one before. */
  lemma {:induction false} PiecesInOrder(es: seq<Event>)
    requires Exec(es).Some?
    ensures InOrder(Pieces(es), Exec(es).value)
  {
    if es != [] {
      var front, e := es[..|es| - 1], es[|es| - 1];
      PiecesInOrder(front);
      CreditsAreAccounted(front);
      hide InOrder, Accounted, Apply, Enabled, UartRx.ReadResult, ToU16;
      PieceStep(Exec(front).value, Lost(front), e, Pieces(front));
    }
  }

  lemma {:induction false} TotalGrows(ps: seq<Piece>, i: nat, j: nat)
    requires i < j <= |ps|
    ensures Total(ps[..i]) + ps[i].len <= Total(ps[..j])
    decreases j
  {
    assert ps[..j][..j - 1] == ps[..j - 1];
    if i < j - 1 {
      TotalGrows(ps, i, j - 1);
    }
  }

  lemma {:induction false} TiledAt(ps: seq<Piece>, k: nat)
    requires Tiled(ps) && k < |ps|
    ensures ps[k].at == ToU16(Total(ps[..k]))
    decreases |ps|
  {
    if k < |ps| - 1 {
      assert ps[..|ps| - 1][..k] == ps[..k];
      TiledAt(ps[..|ps| - 1], k);
    }
  }

  lemma Disjoint(ps: seq<Piece>, i: nat, j: nat)
    requires Tiled(ps) && Total(ps) <= RX_BUF && i < j < |ps|
    ensures ps[i].at + ps[i].len <= ps[j].at && ps[j].at + ps[j].len <= Total(ps)
  {
    hide Tiled, Total;
    TiledAt(ps, i);
    TiledAt(ps, j);
    TotalGrows(ps, i, j);
    TotalGrows(ps, j, |ps|);
    assert ps[..|ps|] == ps;
  }

  /** So no byte of an unfinished command is overwritten while the command fits the buffer. */
  lemma NeverOverwritten(es: seq<Event>, i: nat, j: nat)
    requires Exec(es).Some? && Total(Pieces(es)) <= RX_BUF && i < j < |Pieces(es)|
    ensures Pieces(es)[i].at + Pieces(es)[i].len <= Pieces(es)[j].at
  {
    hide Exec, Pieces, Tiled, Total;
    PiecesInOrder(es);
    Disjoint(Pieces(es), i, j);
  }

  // ---- the source's own form

  /** gstConsole's counters, the message queue and the console task's position. */
  class Console {
    var unread: nat
    var rxDataLen: int
    var msgNum: Byte
    var queue: nat
    var pc: Pc
    var rptr: U16

    function View(): State
      reads this
    {
      State(unread, rxDataLen, msgNum, queue, pc, rptr)
    }

    constructor ()
      ensures View() == INIT
    {
      unread, rxDataLen, msgNum, queue, pc, rptr := 0, 0, 0, 0, Waiting, 0;
    }

    method DemoConsoleRx(len: nat)
      requires Enabled(View(), Rx(len))
      modifies this
      ensures View() == Apply(old(View()), Rx(len))
      ensures rxDataLen == old(rxDataLen) + len && unread == old(unread) + len && pc == old(pc) && rptr == old(rptr)
      ensures old(msgNum) >= 3 ==> msgNum == old(msgNum) && queue == old(queue)
      ensures old(msgNum) < 3 && old(queue) < 32 ==> msgNum == old(msgNum) + 1 && queue == old(queue) + 1
    {
      unread := unread + len;
      rxDataLen := rxDataLen + len;
      if msgNum < CREDITS {
        msgNum := msgNum + 1;
        if queue < QUEUE_SIZE {
          queue := queue + 1;
        }
      }
    }

    method TaskStatement(short: bool)
      requires Enabled(View(), Task(short))
      modifies this
      ensures View() == Apply(old(View()), Task(short))
      ensures old(pc).Executing? ==> rptr == if short then old(rptr) else 0
      ensures old(pc).GotBytes? ==> rxDataLen == old(rxDataLen) - old(pc).ret && rptr == (old(rptr) + old(pc).ret) % 0x1_0000
      ensures !old(pc).Executing? && !old(pc).GotBytes? ==> rptr == old(rptr) && rxDataLen == old(rxDataLen)
      ensures old(pc).Testing? ==> pc == if old(msgNum) != 0 then Crediting else Waiting
      ensures old(pc).Crediting? && old(msgNum) > 0 ==> msgNum == old(msgNum) - 1
      ensures !old(pc).Crediting? ==> msgNum == old(msgNum)
      ensures old(pc).Waiting? ==> queue == old(queue) - 1 && pc == Woken
      ensures old(pc).Woken? && (old(unread) == 0 || old(rxDataLen) % 0x1_0000 == 0) ==>
        pc == Waiting && unread == old(unread)
      ensures old(pc).Woken? && old(unread) > 0 && old(rxDataLen) % 0x1_0000 > 0 ==>
        && pc == GotBytes(old(unread) - unread) && unread < old(unread)
        && (unread == 0 || old(unread) - unread == old(rxDataLen) % 0x1_0000)
    {
      match pc {
        case Waiting =>
          queue := queue - 1;
          pc := Woken;
        case Woken =>
          var ret := UartRx.ReadResult(unread, ToU16(rxDataLen));
          if ret <= 0 {
            pc := Waiting;
          } else {
            unread := unread - ret;
            pc := GotBytes(ret);
          }
        case GotBytes(ret) =>
          rxDataLen := rxDataLen - ret;
          rptr := ToU16(rptr as int + ret);
          pc := Executing;
        case Executing =>
          if !short {
            rptr := 0;
          }
          pc := Testing;
        case Testing =>
          if msgNum != 0 {
            pc := Crediting;
          } else {
            pc := Waiting;
          }
        case Crediting =>
          msgNum := ToByte(msgNum - 1);
          pc := Waiting;
      }
    }

    /** Any schedule, executed on the counters themselves, keeps every credit accounted for. */
    method Run(es: seq<Event>)
      requires View() == INIT && Exec(es).Some?
      modifies this
      ensures Some(View()) == Exec(es)
      ensures Accounted(View(), Lost(es))
      ensures EveryCallbackBringsBytes(es) ==> Live(View(), Lost(es))
    {
      for i := 0 to |es|
        invariant Exec(es[..i]) == Some(View())
      {
        Prefix(es, i + 1);
        assert es[..i + 1][..i] == es[..i];
        match es[i] {
          case Rx(n) => DemoConsoleRx(n);
          case Task(short) => TaskStatement(short);
        }
      }
      assert es[..|es|] == es;
      CreditsAreAccounted(es);
      if EveryCallbackBringsBytes(es) {
        AtMostTwoCreditsLost(es);
      }
    }
  }

  lemma {:induction false} Prefix(es: seq<Event>, i: nat)
    requires Exec(es).Some? && i <= |es|
    ensures Exec(es[..i]).Some?
    decreases |es| - i
  {
    if i == |es| {
      assert es[..i] == es;
    } else {
      Prefix(es, i + 1);
      assert es[..i + 1][..i] == es[..i];
    }
  }
}
