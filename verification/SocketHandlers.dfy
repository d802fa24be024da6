/** The connection table of demo/wm_socket_server_demo.c with whole handlers as steps. */
module SocketHandlers {
  import opened CTypes
  import opened SocketTable

  /** slots and connNum are the source's; accepted and closed log every descriptor taken and closed. */
  datatype Table = Table(slots: seq<int>, connNum: int, accepted: multiset<int>, closed: multiset<int>)

  const INIT := Table(EMPTY, 0, multiset{}, multiset{})

  function FirstFree(slots: seq<int>, from: nat): (i: nat)
    requires from <= |slots|
    ensures from <= i <= |slots| && (i < |slots| ==> slots[i] == FREE)
    ensures forall j | from <= j < i :: slots[j] != FREE
    decreases |slots| - from
  {
    if from == |slots| || slots[from] == FREE then from else FirstFree(slots, from + 1)
  }

  /** Lines 582-607: the first free slot, or the descriptor is closed. */
  function OnAdmit(t: Table, fd: int): Table {
    if t.connNum < BACKLOG then
      var i := FirstFree(t.slots, 0);
      if i == |t.slots| then t else t.(slots := t.slots[i := fd], connNum := t.connNum + 1)
    else t.(closed := t.closed + multiset{fd})
  }

  lemma AdmitMeans(t: Table, fd: int)
    requires |t.slots| == BACKLOG && t.connNum == Occupied(t.slots)
    ensures t.connNum >= BACKLOG ==> OnAdmit(t, fd) == t.(closed := t.closed + multiset{fd})
    ensures t.connNum < BACKLOG ==>
      && OnAdmit(t, fd).connNum == t.connNum + 1 && OnAdmit(t, fd).closed == t.closed
      && exists i: nat | i < BACKLOG :: t.slots[i] == FREE && OnAdmit(t, fd).slots == t.slots[i := fd]
  {
    OccupiedBounds(t.slots);
  }

  /** Lines 573-607 for what accept returned. */
  function OnAccept(t: Table, fd: int): Table {
    if fd <= 0 then t else OnAdmit(t.(accepted := t.accepted + multiset{fd}), fd)
  }

  /** Lines 140-152 for one slot. */
  function OnGone(t: Table, i: nat): Table
    requires i < |t.slots|
  {
    if t.slots[i] == FREE then t
    else t.(slots := t.slots[i := FREE], connNum := t.connNum - 1, closed := t.closed + multiset{t.slots[i]})
  }

  /** The counter is exact, held descriptors are distinct and positive, and every descriptor ever
      accepted is either in the table or closed. */
  ghost predicate Inv(t: Table) {
    && |t.slots| == BACKLOG
    && t.connNum == Occupied(t.slots)
    && (forall i, j | 0 <= i < j < BACKLOG && t.slots[i] == t.slots[j] :: t.slots[i] == FREE)
    && (forall i | 0 <= i < BACKLOG :: t.slots[i] == FREE || t.slots[i] > 0)
    && t.accepted == Held(t.slots) + t.closed
  }

  lemma AcceptKeeps(t: Table, fd: int)
    requires Inv(t) && (fd > 0 ==> fd !in t.slots)
    ensures Inv(OnAccept(t, fd))
    ensures fd > 0 && t.connNum < BACKLOG ==> fd in OnAccept(t, fd).slots
  {
    hide Occupied, Held;
    if fd > 0 && t.connNum < BACKLOG {
      OccupiedBounds(t.slots);
      var i := FirstFree(t.slots, 0);
      StoreKeeps(t, fd, i);
      assert t.slots[i := fd][i] == fd;
    } else if fd > 0 {
      Balance(t.accepted, Held(t.slots), Held(t.slots), t.closed, fd);
    }
  }

  lemma StoreKeeps(t: Table, fd: int, i: nat)
    requires Inv(t) && fd > 0 && fd !in t.slots && i < BACKLOG && t.slots[i] == FREE
    ensures Inv(t.(slots := t.slots[i := fd], connNum := t.connNum + 1, accepted := t.accepted + multiset{fd}))
  {
    hide Occupied, Held;
    OccupiedUpdate(t.slots, i, fd);
    HeldUpdate(t.slots, i, fd);
    Balance(t.accepted, Held(t.slots), Held(t.slots[i := fd]), t.closed, fd);
  }

  lemma Balance(accepted: multiset<int>, held: multiset<int>, held': multiset<int>, closed: multiset<int>, fd: int)
    requires accepted == held + closed
    ensures held' + One(FREE) == held + One(fd) && fd != FREE ==> accepted + multiset{fd} == held' + closed
    ensures accepted + multiset{fd} == held + (closed + multiset{fd})
  {
    if held' + One(FREE) == held + One(fd) && fd != FREE {
      assert held' == held + multiset{fd};
    }
  }

  lemma GoneKeeps(t: Table, i: nat)
    requires Inv(t) && i < BACKLOG
    ensures Inv(OnGone(t, i))
  {
    OccupiedUpdate(t.slots, i, FREE);
    HeldUpdate(t.slots, i, FREE);
    assert Held(t.slots[i := FREE]) + One(t.slots[i]) == Held(t.slots);
  }

  datatype Handler = Accept(fd: int) | Gone(i: nat)

  /** A run of handlers; accept never returns a descriptor that is still open in the table. */
  function Run(hs: seq<Handler>): Option<Table> {
    if hs == [] then Some(INIT) else
      match Run(hs[..|hs| - 1])
      case None => None
      case Some(t) =>
        match hs[|hs| - 1]
        case Accept(fd) => if fd > 0 && fd in t.slots then None else Some(OnAccept(t, fd))
        case Gone(i) => if i < |t.slots| then Some(OnGone(t, i)) else None
  }

  lemma {:induction false} EveryRun(hs: seq<Handler>)
    requires Run(hs).Some?
    ensures Inv(Run(hs).value)
  {
    if hs == [] {
      EmptyTable();
      HeldNone(EMPTY);
    } else {
      var front, h := hs[..|hs| - 1], hs[|hs| - 1];
      EveryRun(front);
      match h {
        case Accept(fd) => AcceptKeeps(Run(front).value, fd);
        case Gone(i) => GoneKeeps(Run(front).value, i);
      }
    }
  }

  // ---- one pass of the receive task

  /** Slot i's client is reported ready and its recv returns nothing. */
  predicate Leaves(slots: seq<int>, ready: set<int>, got: nat -> int, i: nat)
    requires i < |slots|
  {
    slots[i] != FREE && slots[i] in ready && got(i) <= 0
  }

  /** The first n slots looked at. */
  function OnLeave(t: Table, ready: set<int>, got: nat -> int, n: nat): (u: Table)
    requires n <= |t.slots|
    ensures |u.slots| == |t.slots|
  {
    if n == 0 then t else
      var u := OnLeave(t, ready, got, n - 1);
      if Leaves(t.slots, ready, got, n - 1) then OnGone(u, n - 1) else u
  }

  lemma {:induction false} LeaveSlot(t: Table, ready: set<int>, got: nat -> int, n: nat, i: nat)
    requires n <= |t.slots| && i < |t.slots|
    ensures OnLeave(t, ready, got, n).slots[i] == if i < n && Leaves(t.slots, ready, got, i) then FREE else t.slots[i]
    decreases n
  {
    hide OnGone, OnLeave, Leaves;
    LeaveUnfolds(t, ready, got, n);
    if n > 0 {
      LeaveSlot(t, ready, got, n - 1, i);
      GoneSlots(OnLeave(t, ready, got, n - 1), n - 1);
    }
  }

  lemma {:induction false} LeaveInv(t: Table, ready: set<int>, got: nat -> int, n: nat)
    requires Inv(t) && n <= BACKLOG
    ensures |t.slots| == BACKLOG && Inv(OnLeave(t, ready, got, n)) && OnLeave(t, ready, got, n).accepted == t.accepted
    decreases n
  {
    TableSize(t);
    hide Inv, OnGone, OnLeave, Leaves;
    LeaveUnfolds(t, ready, got, n);
    if n > 0 {
      LeaveInv(t, ready, got, n - 1);
      GoneKeeps(OnLeave(t, ready, got, n - 1), n - 1);
      GoneSlots(OnLeave(t, ready, got, n - 1), n - 1);
    }
  }

  /** Exactly the clients that left are gone, and the table stays consistent. */
  lemma LeaveKeeps(t: Table, ready: set<int>, got: nat -> int, n: nat)
    requires Inv(t) && n <= BACKLOG
    ensures Inv(OnLeave(t, ready, got, n)) && OnLeave(t, ready, got, n).accepted == t.accepted
    ensures forall i: nat | i < BACKLOG ::
      OnLeave(t, ready, got, n).slots[i] == if i < n && t.slots[i] in ready && got(i) <= 0 then FREE else t.slots[i]
  {
    hide Inv, OnLeave;
    LeaveInv(t, ready, got, n);
    forall i: nat | i < BACKLOG
      ensures OnLeave(t, ready, got, n).slots[i] == if i < n && t.slots[i] in ready && got(i) <= 0 then FREE else t.slots[i]
    {
      LeaveSlot(t, ready, got, n, i);
    }
  }

  lemma GoneSlots(t: Table, i: nat)
    requires i < |t.slots|
    ensures OnGone(t, i).slots == t.slots[i := FREE] && OnGone(t, i).accepted == t.accepted
  {
  }

  lemma TableSize(t: Table)
    requires Inv(t)
    ensures |t.slots| == BACKLOG
  {
  }

  lemma LeaveUnfolds(t: Table, ready: set<int>, got: nat -> int, n: nat)
    requires n <= |t.slots|
    ensures n == 0 ==> OnLeave(t, ready, got, n) == t
    ensures n > 0 ==> var u := OnLeave(t, ready, got, n - 1);
      OnLeave(t, ready, got, n) == if Leaves(t.slots, ready, got, n - 1) then OnGone(u, n - 1) else u
  {
  }

  /** The pass finds the client of slot i as it was, and may close it. */
  lemma LeaveStep(t: Table, ready: set<int>, got: nat -> int, i: nat)
    requires Inv(t) && i < BACKLOG
    ensures OnLeave(t, ready, got, i).slots[i] == t.slots[i]
    ensures var u := OnLeave(t, ready, got, i);
      OnLeave(t, ready, got, i + 1) == if Leaves(t.slots, ready, got, i) then OnGone(u, i) else u
  {
    hide OnLeave, OnGone;
    LeaveKeeps(t, ready, got, i);
    LeaveUnfolds(t, ready, got, i + 1);
  }

  lemma DistinctSlots(t: Table)
    requires Inv(t)
    ensures |t.slots| == BACKLOG
    ensures forall i, j | 0 <= i < j < BACKLOG && t.slots[i] == t.slots[j] :: t.slots[i] == FREE
  {
  }
}
