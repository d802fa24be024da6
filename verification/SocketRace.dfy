/** The connection table of demo/wm_socket_server_demo.c under every interleaving of the accept loop of
    socket_server with the receive loop of sock_server_recv_task, one statement at a time. */
module SocketRace {
  import opened CTypes
  import opened SocketTable

  /** The accept loop's next statement. */
  datatype Accepting =
    | Listening
    | Check(fd: int)                        // if (conn_num < BACKLOG)
    | Scan(fd: int, i: nat)                 // if (client_fd_queue[i] == -1)
    | Store(fd: int, i: nat)                // client_fd_queue[i] = new_fd
    | Count                                 // conn_num++

  /** The receive loop's next statement, with the descriptors select reported. */
  datatype Receiving =
    | Resting                               // if (conn_num < 1), then select
    | Look(i: nat, ready: set<int>)         // client_fd_queue[i] and recv
    | Close(i: nat, ready: set<int>)        // closesocket, FD_CLR
    | Discount(i: nat, ready: set<int>)     // conn_num--
    | Clear(i: nat, ready: set<int>)        // client_fd_queue[i] = -1

  datatype State = State(slots: seq<int>, connNum: int, a: Accepting, r: Receiving)

  datatype Event =
    | NewClient(fd: int)     // accept returns
    | AcceptStep
    | Wake(ready: set<int>)  // select returns
    | ReceiveStep(gone: bool)

  const INIT := State(EMPTY, 0, Listening, Resting)

  predicate Enabled(s: State, e: Event) {
    match e
    case NewClient(fd) => s.a.Listening? && fd > 0
    case AcceptStep =>
      !s.a.Listening? && (s.a.Scan? ==> s.a.i <= |s.slots|) && (s.a.Store? ==> s.a.i < |s.slots|)
    case Wake(ready) => s.r.Resting? && s.connNum >= 1 && forall fd <- ready :: fd in s.slots
    case ReceiveStep(gone) =>
      && !s.r.Resting? && s.r.i <= |s.slots| && (!s.r.Look? ==> s.r.i < |s.slots|)
      && (gone ==> s.r.Look? && s.r.i < |s.slots| && s.slots[s.r.i] in s.r.ready)
  }

  function OnAccept(s: State): State
    requires Enabled(s, AcceptStep)
  {
    match s.a
    case Check(fd) => s.(a := if s.connNum < BACKLOG then Scan(fd, 0) else Listening)
    case Scan(fd, i) =>
      if i == |s.slots| then s.(a := Listening)
      else if s.slots[i] == FREE then s.(a := Store(fd, i))
      else s.(a := Scan(fd, i + 1))
    case Store(fd, i) => s.(slots := s.slots[i := fd], a := Count)
    case Count => s.(connNum := s.connNum + 1, a := Listening)
    case Listening => s
  }

  function OnReceive(s: State, gone: bool): State
    requires Enabled(s, ReceiveStep(gone))
  {
    match s.r
    case Resting => s
    case Look(i, ready) =>
      if i == |s.slots| then s.(r := Resting)
      else if s.slots[i] == FREE || !gone then s.(r := Look(i + 1, ready))
      else s.(r := Close(i, ready))
    case Close(i, ready) => s.(r := Discount(i, ready - {s.slots[i]}))
    case Discount(i, ready) => s.(connNum := s.connNum - 1, r := Clear(i, ready))
    case Clear(i, ready) => s.(slots := s.slots[i := FREE], r := Look(i + 1, ready))
  }

  function Apply(s: State, e: Event): State
    requires Enabled(s, e)
  {
    match e
    case NewClient(fd) => s.(a := Check(fd))
    case AcceptStep => OnAccept(s)
    case Wake(ready) => s.(r := Look(0, ready))
    case ReceiveStep(gone) => OnReceive(s, gone)
  }

  function Exec(es: seq<Event>): Option<State> {
    if es == [] then Some(INIT) else
      match Exec(es[..|es| - 1])
      case None => None
      case Some(s) => if Enabled(s, es[|es| - 1]) then Some(Apply(s, es[|es| - 1])) else None
  }

  /** The accept loop has stored a descriptor and not yet counted it. */
  function Uncounted(s: State): nat { if s.a.Count? then 1 else 0 }

  /** The receive loop has discounted a descriptor and not yet cleared its slot. */
  function Uncleared(s: State): nat { if s.r.Clear? then 1 else 0 }

  ghost predicate Inv(s: State) {
    && |s.slots| == BACKLOG
    && Occupied(s.slots) == s.connNum + Uncounted(s) + Uncleared(s)
    && (s.a.Check? || s.a.Scan? || s.a.Store? ==> s.a.fd > 0)
    && (s.a.Scan? ==> s.a.i <= BACKLOG)
    && (s.a.Store? ==> s.a.i < BACKLOG && s.slots[s.a.i] == FREE)
    && (s.r.Look? ==> s.r.i <= BACKLOG)
    && (s.r.Close? || s.r.Discount? || s.r.Clear? ==> s.r.i < BACKLOG && s.slots[s.r.i] != FREE)
  }

  lemma AcceptStepKeeps(s: State)
    requires Inv(s) && Enabled(s, AcceptStep)
    ensures Inv(OnAccept(s))
  {
    match s.a
    case Store(fd, i) => OccupiedUpdate(s.slots, i, fd);
    case _ =>
  }

  lemma ReceiveStepKeeps(s: State, gone: bool)
    requires Inv(s) && Enabled(s, ReceiveStep(gone))
    ensures Inv(OnReceive(s, gone))
  {
    if s.r.Clear? {
      OccupiedUpdate(s.slots, s.r.i, FREE);
    }
  }

  lemma {:induction false} Invariant(es: seq<Event>)
    requires Exec(es).Some?
    ensures Inv(Exec(es).value)
  {
    if es == [] {
      EmptyTable();
    } else {
      var front := es[..|es| - 1];
      Invariant(front);
      StepKeeps(Exec(front).value, es[|es| - 1]);
    }
  }

  /** In every interleaving the counter is off only by the two open windows, so it stays within
      -1..7, and it is exact whenever both tasks are outside them. */
  lemma CounterIsExact(es: seq<Event>)
    requires Exec(es).Some?
    ensures var s := Exec(es).value;
      && Occupied(s.slots) == s.connNum + Uncounted(s) + Uncleared(s)
      && -1 <= s.connNum <= BACKLOG
      && (!s.a.Count? && !s.r.Clear? ==> s.connNum == Occupied(s.slots))
  {
    Invariant(es);
    var s := Exec(es).value;
    OccupiedBounds(s.slots);
    if s.r.Clear? {
      OneOccupied(s.slots, s.r.i);
    }
  }

  /** A new descriptor that passed the check and finds no slot: neither stored nor closed. */
  predicate Dropped(s: State) { s.a.Scan? && s.a.i == |s.slots| }

  /** The run goes on from s for as long as the accept loop deals with the same descriptor. */
  function Continue(s: State, es: seq<Event>): Option<State> {
    if es == [] then Some(s) else
      match Continue(s, es[..|es| - 1])
      case None => None
      case Some(t) =>
        if !t.a.Listening? && Enabled(t, es[|es| - 1]) then Some(Apply(t, es[|es| - 1])) else None
  }

  ghost predicate CanDrop(s: State) {
    exists es :: Continue(s, es).Some? && Dropped(Continue(s, es).value)
  }

  /** The descriptor in hand has a free slot ahead of it. */
  ghost predicate SlotAhead(s: State) {
    match s.a
    case Check(_) => HasFreeFrom(s.slots, 0)
    case Scan(_, i) => HasFreeFrom(s.slots, i)
    case _ => true
  }

  /** A free slot ahead stays free, or becomes this descriptor's, whatever either task does. */
  lemma SlotAheadStays(s: State, e: Event)
    requires Inv(s) && SlotAhead(s) && !s.a.Listening? && Enabled(s, e)
    ensures SlotAhead(Apply(s, e))
  {
    hide Occupied;
    var from := if s.a.Scan? then s.a.i else 0;
    if (s.a.Check? || s.a.Scan?) && e.ReceiveStep? {
      var f :| from <= f < |s.slots| && s.slots[f] == FREE;
      assert Apply(s, e).slots[f] == FREE;
    }
  }

  lemma StepKeeps(s: State, e: Event)
    requires Inv(s) && Enabled(s, e)
    ensures Inv(Apply(s, e))
  {
    if e.AcceptStep? { AcceptStepKeeps(s); }
    if e.ReceiveStep? { ReceiveStepKeeps(s, e.gone); }
  }

  lemma {:induction false} NeverDropped(s: State, es: seq<Event>)
    requires Inv(s) && SlotAhead(s) && Continue(s, es).Some?
    ensures Inv(Continue(s, es).value) && SlotAhead(Continue(s, es).value) && !Dropped(Continue(s, es).value)
  {
    if es != [] {
      var front := es[..|es| - 1];
      NeverDropped(s, front);
      StepKeeps(Continue(s, front).value, es[|es| - 1]);
      SlotAheadStays(Continue(s, front).value, es[|es| - 1]);
    }
  }

  /** With every slot occupied, the accept steps alone walk past the end of the table. */
  lemma {:induction false} WalkPast(s: State, i: nat)
    requires s.a.Check? && s.connNum < BACKLOG && i <= |s.slots| && !HasFreeFrom(s.slots, 0)
    ensures exists es :: Continue(s, es) == Some(s.(a := Scan(s.a.fd, i)))
  {
    if i == 0 {
      assert [AcceptStep][..0] == [];
      assert Continue(s, [AcceptStep]) == Some(s.(a := Scan(s.a.fd, 0)));
    } else {
      WalkPast(s, i - 1);
      var es :| Continue(s, es) == Some(s.(a := Scan(s.a.fd, i - 1)));
      assert (es + [AcceptStep])[..|es|] == es;
      assert Continue(s, es + [AcceptStep]) == Some(s.(a := Scan(s.a.fd, i)));
    }
  }

  /** In every interleaving: a new descriptor that passes the check can be dropped if and only if no slot
      is free at that moment; the receive task is then between its decrement and its slot clear. */
  lemma DroppedIffNoSlotFree(es: seq<Event>)
    requires Exec(es).Some? && Exec(es).value.a.Check? && Exec(es).value.connNum < BACKLOG
    ensures var s := Exec(es).value;
      && (CanDrop(s) <==> !HasFreeFrom(s.slots, 0))
      && (CanDrop(s) ==> s.r.Clear? && s.connNum == BACKLOG - 1)
  {
    var s := Exec(es).value;
    Invariant(es);
    FreeExists(s.slots);
    OccupiedBounds(s.slots);
    if HasFreeFrom(s.slots, 0) {
      forall more | Continue(s, more).Some? ensures !Dropped(Continue(s, more).value) {
        NeverDropped(s, more);
      }
    } else {
      WalkPast(s, BACKLOG);
      var more :| Continue(s, more) == Some(s.(a := Scan(s.a.fd, BACKLOG)));
      assert Dropped(Continue(s, more).value);
    }
  }

  // ---- a pass of the receive loop reaches every slot

  /** The state after these events, if each is possible. */
  function Steps(s: State, es: seq<Event>): Option<State>
    decreases es
  {
    if es == [] then Some(s) else if Enabled(s, es[0]) then Steps(Apply(s, es[0]), es[1..]) else None
  }

  predicate ReceiveOnly(es: seq<Event>) { forall e <- es :: e.ReceiveStep? }

  lemma OneStepFirst(s: State, e: Event, es: seq<Event>)
    requires Enabled(s, e)
    ensures Steps(s, [e] + es) == Steps(Apply(s, e), es)
  {
    assert ([e] + es)[1..] == es;
  }

  /** The client of a slot that is looked at has left. */
  predicate HasLeft(s: State, j: nat, ready: set<int>, gone: set<nat>)
    requires j < |s.slots|
  {
    s.slots[j] != FREE && s.slots[j] in ready && j in gone
  }

  /** Whichever clients have left, the receive loop on its own goes on from slot i to the end of the table, frees the
      slots of those that left and of nobody else, and comes to rest. */
  lemma {:induction false} PassCompletes(s: State, i: nat, ready: set<int>, gone: set<nat>)
      returns (es: seq<Event>, t: State)
    requires s.r == Look(i, ready) && i <= |s.slots|
    requires forall j, k | 0 <= j < k < |s.slots| && s.slots[j] == s.slots[k] :: s.slots[j] == FREE
    ensures ReceiveOnly(es) && Steps(s, es) == Some(t) && t.r == Resting && t.a == s.a && |t.slots| == |s.slots|
    ensures forall j: nat | j < |s.slots| :: t.slots[j] == if i <= j && HasLeft(s, j, ready, gone) then FREE else s.slots[j]
    decreases |s.slots| - i
  {
    if i == |s.slots| {
      es, t := [ReceiveStep(false)], s.(r := Resting);
      OneStepFirst(s, ReceiveStep(false), []);
    } else if HasLeft(s, i, ready, gone) {
      var fd := s.slots[i];
      var s1, s2, s3 := s.(r := Close(i, ready)), s.(r := Discount(i, ready - {fd})),
                        s.(connNum := s.connNum - 1, r := Clear(i, ready - {fd}));
      var s4 := s3.(slots := s.slots[i := FREE], r := Look(i + 1, ready - {fd}));
      es, t := PassCompletes(s4, i + 1, ready - {fd}, gone);
      OneStepFirst(s3, ReceiveStep(false), es);
      OneStepFirst(s2, ReceiveStep(false), [ReceiveStep(false)] + es);
      OneStepFirst(s1, ReceiveStep(false), [ReceiveStep(false)] + ([ReceiveStep(false)] + es));
      var more := [ReceiveStep(false)] + ([ReceiveStep(false)] + ([ReceiveStep(false)] + es));
      OneStepFirst(s, ReceiveStep(true), more);
      es := [ReceiveStep(true)] + more;
    } else {
      var s1 := s.(r := Look(i + 1, ready));
      es, t := PassCompletes(s1, i + 1, ready, gone);
      OneStepFirst(s, ReceiveStep(false), es);
      es := [ReceiveStep(false)] + es;
    }
  }

  predicate AcceptOnly(es: seq<Event>) { forall e <- es :: e.AcceptStep? }

  /** On its own, the accept loop takes a descriptor that passed the check to the first free slot from i on, counts it,
      and goes back to listening; with no free slot it goes back as well. */
  lemma {:induction false} AdmissionCompletes(s: State, fd: int, i: nat) returns (es: seq<Event>, t: State)
    requires s.a == Scan(fd, i) && i <= |s.slots|
    ensures AcceptOnly(es) && Steps(s, es) == Some(t) && t.a == Listening && t.r == s.r
    ensures !HasFreeFrom(s.slots, i) ==> t.slots == s.slots && t.connNum == s.connNum
    ensures HasFreeFrom(s.slots, i) ==> t.connNum == s.connNum + 1
    ensures HasFreeFrom(s.slots, i) ==>
      exists f: nat :: i <= f < |s.slots| && s.slots[f] == FREE && !HasFree(s.slots, i, f) && t.slots == s.slots[f := fd]
    decreases |s.slots| - i
  {
    if i == |s.slots| {
      es, t := [AcceptStep], s.(a := Listening);
      OneStepFirst(s, AcceptStep, []);
    } else if s.slots[i] == FREE {
      var s1 := s.(a := Store(fd, i));
      var s2 := s.(slots := s.slots[i := fd], a := Count);
      t := s2.(connNum := s.connNum + 1, a := Listening);
      OneStepFirst(s2, AcceptStep, []);
      OneStepFirst(s1, AcceptStep, [AcceptStep] + []);
      OneStepFirst(s, AcceptStep, [AcceptStep] + ([AcceptStep] + []));
      es := [AcceptStep] + ([AcceptStep] + ([AcceptStep] + []));
    } else {
      var s1 := s.(a := Scan(fd, i + 1));
      es, t := AdmissionCompletes(s1, fd, i + 1);
      OneStepFirst(s, AcceptStep, es);
      es := [AcceptStep] + es;
      assert HasFreeFrom(s.slots, i) ==> HasFreeFrom(s.slots, i + 1);
      if HasFreeFrom(s.slots, i) {
        var f: nat :| i + 1 <= f < |s.slots| && s.slots[f] == FREE && !HasFree(s.slots, i + 1, f)
                      && t.slots == s.slots[f := fd];
        assert !HasFree(s.slots, i, f);
      }
    }
  }

  predicate HasFree(slots: seq<int>, from: nat, to: nat)
    requires to <= |slots|
  {
    exists j :: from <= j < to && slots[j] == FREE
  }

  // ---- conservation of descriptors

  /** How often descriptor x was returned by accept, closed, and dropped in a run. */
  datatype Books = Books(accepted: nat, closed: nat, dropped: nat)

  function Is(fd: int, x: int): nat { if fd == x then 1 else 0 }

  function Booked(b: Books, s: State, e: Event, x: int): Books
    requires Enabled(s, e)
  {
    match e
    case NewClient(fd) => b.(accepted := b.accepted + Is(fd, x))
    case AcceptStep =>
      if s.a.Check? && s.connNum >= BACKLOG then b.(closed := b.closed + Is(s.a.fd, x))
      else if Dropped(s) then b.(dropped := b.dropped + Is(s.a.fd, x))
      else b
    case Wake(_) => b
    case ReceiveStep(_) => if s.r.Close? then b.(closed := b.closed + Is(s.slots[s.r.i], x)) else b
  }

  function Ledger(es: seq<Event>, x: int): Books {
    if es == [] then Books(0, 0, 0) else
      var front, e := es[..|es| - 1], es[|es| - 1];
      match Exec(front)
      case None => Ledger(front, x)
      case Some(s) => if Enabled(s, e) then Booked(Ledger(front, x), s, e, x) else Ledger(front, x)
  }

  /** The accept loop is still holding x. */
  function InHand(s: State, x: int): nat {
    if s.a.Check? || s.a.Scan? || s.a.Store? then Is(s.a.fd, x) else 0
  }

  /** x is closed but still in its slot. */
  function Closing(s: State, x: int): nat {
    if (s.r.Discount? || s.r.Clear?) && s.r.i < |s.slots| then Is(s.slots[s.r.i], x) else 0
  }

  ghost predicate Balanced(b: Books, s: State, x: int) {
    b.accepted + Closing(s, x) == Copies(s.slots, x) + b.closed + b.dropped + InHand(s, x)
  }

  lemma StepBalances(b: Books, s: State, e: Event, x: int)
    requires Inv(s) && Enabled(s, e) && Balanced(b, s, x) && x != FREE
    ensures Balanced(Booked(b, s, e, x), Apply(s, e), x)
  {
    hide Occupied, Copies, HasFreeFrom;
    if e.AcceptStep? && s.a.Store? {
      CopiesUpdate(s.slots, s.a.i, s.a.fd, x);
    }
    if e.ReceiveStep? && s.r.Clear? {
      CopiesUpdate(s.slots, s.r.i, FREE, x);
    }
  }

  /** In every interleaving, for every descriptor number: each time it was accepted it is in a slot,
      closed, dropped or in the accept loop's hand; only while being closed is it held and closed at once. */
  lemma {:induction false} DescriptorsAreConserved(es: seq<Event>, x: int)
    requires Exec(es).Some? && x != FREE
    ensures Balanced(Ledger(es, x), Exec(es).value, x)
    decreases es
  {
    if es == [] {
      CopiesNone(EMPTY, x);
    } else {
      var front := es[..|es| - 1];
      Invariant(front);
      DescriptorsAreConserved(front, x);
      hide Inv, Balanced;
      StepBalances(Ledger(front, x), Exec(front).value, es[|es| - 1], x);
    }
  }

  // ---- the windows are real

  ghost predicate Reaches(s: State) { exists es :: Exec(es) == Some(s) }

  lemma ReachesInit()
    ensures Reaches(INIT)
  {
    assert Exec([]) == Some(INIT);
  }

  lemma Extend(s: State, e: Event)
    requires Reaches(s) && Enabled(s, e)
    ensures Reaches(Apply(s, e))
  {
    var es :| Exec(es) == Some(s);
    assert (es + [e])[..|es|] == es;
    assert Exec(es + [e]) == Some(Apply(s, e));
  }

  /** k clients, descriptors 1..k, in the first k slots. */
  function Clients(k: nat): seq<int> { seq(BACKLOG, i => if i < k then i + 1 else FREE) }

  lemma {:induction false} ScanTo(s: State, i: nat)
    requires Reaches(s) && s.a.Scan? && s.a.i <= i <= |s.slots|
    requires forall j | s.a.i <= j < i :: s.slots[j] != FREE
    ensures Reaches(s.(a := Scan(s.a.fd, i)))
    decreases i - s.a.i
  {
    hide Reaches;
    if s.a.i < i {
      Extend(s, AcceptStep);
      ScanTo(s.(a := Scan(s.a.fd, s.a.i + 1)), i);
    }
  }

  /** The accept loop alone admits one more client, up to the point before it counts it. */
  lemma AdmitOne(k: nat)
    requires k < BACKLOG && Reaches(State(Clients(k), k, Listening, Resting))
    ensures Reaches(State(Clients(k + 1), k, Count, Resting))
  {
    hide Reaches;
    var s := State(Clients(k), k, Listening, Resting);
    Extend(s, NewClient(k + 1));
    Extend(s.(a := Check(k + 1)), AcceptStep);
    ScanTo(s.(a := Scan(k + 1, 0)), k);
    Extend(s.(a := Scan(k + 1, k)), AcceptStep);
    Extend(s.(a := Store(k + 1, k)), AcceptStep);
    assert Clients(k)[k := k + 1] == Clients(k + 1);
  }

  lemma {:induction false} FillTable(k: nat)
    requires k <= BACKLOG
    ensures Reaches(State(Clients(k), k, Listening, Resting))
  {
    hide Reaches;
    if k == 0 {
      ReachesInit();
      assert Clients(0) == EMPTY;
    } else {
      FillTable(k - 1);
      AdmitOne(k - 1);
      Extend(State(Clients(k), k - 1, Count, Resting), AcceptStep);
    }
  }

  /** The receive loop, alone, gets from looking at slot i to having discounted it. */
  lemma DiscountSlot(s: State, i: nat, ready: set<int>)
    requires Reaches(s) && s.r == Look(i, ready) && i < |s.slots| && s.slots[i] != FREE && s.slots[i] in ready
    ensures Reaches(s.(connNum := s.connNum - 1, r := Clear(i, ready - {s.slots[i]})))
  {
    hide Reaches;
    Extend(s, ReceiveStep(true));
    Extend(s.(r := Close(i, ready)), ReceiveStep(false));
    Extend(s.(r := Discount(i, ready - {s.slots[i]})), ReceiveStep(false));
  }

  /** With seven clients, one leaving while the eighth arrives, the eighth can be dropped. */
  lemma DropHappens()
    ensures exists s :: Reaches(s) && Dropped(s)
  {
    hide Reaches;
    FillTable(BACKLOG);
    var full := Clients(BACKLOG);
    var s := State(full, BACKLOG, Listening, Resting);
    assert full[0] == 1;
    Extend(s, Wake({1}));
    DiscountSlot(s.(r := Look(0, {1})), 0, {1});
    var r := Clear(0, {1} - {1});
    var t := s.(connNum := BACKLOG - 1, r := r);
    Extend(t, NewClient(8));
    Extend(t.(a := Check(8)), AcceptStep);
    ScanTo(t.(a := Scan(8, 0)), BACKLOG);
    assert Dropped(t.(a := Scan(8, BACKLOG)));
  }

  /** Both windows open on the last two clients: the counter reads -1. */
  lemma MinusOneHappens()
    ensures exists s :: Reaches(s) && s.connNum == -1
  {
    hide Reaches;
    FillTable(1);
    AdmitOne(1);
    var c := Clients(2);
    assert c[0] == 1 && c[1] == 2;
    var s := State(c, 1, Count, Resting);
    Extend(s, Wake({1, 2}));
    DiscountSlot(s.(r := Look(0, {1, 2})), 0, {1, 2});
    assert {1, 2} - {1} == {2};
    var t := s.(connNum := 0, r := Clear(0, {2}));
    Extend(t, ReceiveStep(false));
    var u := t.(slots := c[0 := FREE], r := Look(1, {2}));
    DiscountSlot(u, 1, {2});
    assert u.(connNum := -1, r := Clear(1, {2} - {2})).connNum == -1;
  }
}
