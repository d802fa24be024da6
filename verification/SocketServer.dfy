/** The record and the handlers of demo/wm_socket_server_demo.c: accepting, receiving, requesting and
    sending, each against its step function. */
module SocketServer {
  import opened CTypes
  import opened SocketTable
  import opened SocketHandlers
  import opened SocketSend
  import opened SocketLoop

  /** The socket-server record, with a ledger of what was asked for and sent on every slot. */
  class Server {
    const fds: array<int>      // client_fd_queue
    const ifSnd: array<Flag>
    const sndLen: array<int>   // snd_data_len
    var connNum: int
    var allSnd: Flag
    var sendLen: int           // the send task's local len, kept from pass to pass
    ghost var accepted: multiset<int>
    ghost var closed: multiset<int>
    ghost var asked: seq<int>
    ghost var sent: seq<int>

    ghost predicate Arrays()
      reads this`asked, this`sent
    {
      && fds.Length == ifSnd.Length == sndLen.Length == |asked| == |sent| == BACKLOG
      && fds != sndLen
    }

    ghost function View(): Table
      reads this`connNum, this`accepted, this`closed, fds
    {
      Table(fds[..], connNum, accepted, closed)
    }

    ghost function State(): Sender
      reads this, fds, ifSnd, sndLen
    {
      Sender(View(), ifSnd[..], allSnd, sndLen[..], asked, sent, sendLen)
    }

    ghost predicate Valid()
      reads this, fds
    {
      Arrays() && Inv(View())
    }

    constructor ()
      ensures Valid() && Intact(State()) && View() == INIT && sendLen == CHUNK && allSnd == 0
      ensures fresh(fds) && fresh(ifSnd) && fresh(sndLen)
    {
      sendLen := CHUNK;
      fds := new int[BACKLOG](_ => FREE);
      ifSnd := new Flag[BACKLOG](_ => 0);
      sndLen := new int[BACKLOG](_ => 0);
      connNum, allSnd, accepted, closed := 0, 0, multiset{}, multiset{};
      asked, sent := seq(BACKLOG, _ => 0), seq(BACKLOG, _ => 0);
      new;
      assert fds[..] == EMPTY;
      EmptyTable();
      HeldNone(EMPTY);
    }

    // ---- clients

    /** The scan for a free slot; BACKLOG if there is none. */
    method FindFree() returns (i: nat)
      requires fds.Length == BACKLOG
      ensures i == FirstFree(fds[..], 0)
    {
      i := 0;
      while i < BACKLOG && fds[i] != FREE
        invariant i <= BACKLOG && FirstFree(fds[..], 0) == FirstFree(fds[..], i)
      {
        i := i + 1;
      }
    }

    method Admit(newFd: int)
      requires fds.Length == BACKLOG
      modifies this`connNum, this`closed, fds
      ensures View() == OnAdmit(old(View()), newFd)
    {
      if connNum < BACKLOG {
        var i := FindFree();
        if i < BACKLOG {
          ghost var slots := fds[..];
          fds[i] := newFd;
          assert fds[..] == slots[i := newFd];
          connNum := connNum + 1;
        }
      } else {
        closed := closed + multiset{newFd};
      }
    }

    /** The accept handler. */
    method Accept(newFd: int)
      requires Valid() && (newFd > 0 ==> newFd !in fds[..])
      modifies this`connNum, this`accepted, this`closed, fds
      ensures Valid() && View() == OnAccept(old(View()), newFd)
      ensures newFd <= 0 ==> fds[..] == old(fds[..]) && connNum == old(connNum) && closed == old(closed)
      ensures newFd > 0 && old(connNum) >= BACKLOG ==> fds[..] == old(fds[..]) && closed == old(closed) + multiset{newFd}
      ensures newFd > 0 && old(connNum) < BACKLOG ==>
        && connNum == old(connNum) + 1 && closed == old(closed)
        && exists i: nat | i < BACKLOG :: old(fds[i]) == FREE && fds[..] == old(fds[..])[i := newFd]
    {
      assert connNum == Occupied(fds[..]);
      hide Inv, OnAdmit;
      AcceptKeeps(View(), newFd);
      AdmitMeans(View().(accepted := accepted + multiset{newFd}), newFd);
      if newFd > 0 {
        accepted := accepted + multiset{newFd};
        Admit(newFd);
      }
    }

    /** Lines 144-151. */
    method CloseSlot(i: nat)
      requires Valid() && i < BACKLOG && fds[i] != FREE
      modifies this`connNum, this`closed, fds
      ensures Valid() && View() == OnGone(old(View()), i)
    {
      hide Inv;
      GoneKeeps(View(), i);
      ghost var was := fds[..];
      closed := closed + multiset{fds[i]};
      connNum := connNum - 1;
      fds[i] := FREE;
      assert fds[..] == was[i := FREE];
    }

    /** The pass of sock_server_recv_task over the table: exactly the clients that left are closed. */
    method ReceivePass(ready: set<int>, got: nat -> int)
      requires Valid()
      modifies this`connNum, this`closed, fds
      ensures Valid() && View() == OnLeave(old(View()), ready, got, BACKLOG) && accepted == old(accepted)
      ensures forall i: nat | i < BACKLOG :: fds[i] == FREE <==> old(fds[i]) == FREE || (old(fds[i]) in ready && got(i) <= 0)
      ensures forall i: nat | i < BACKLOG && fds[i] != FREE :: fds[i] == old(fds[i])
    {
      hide Inv, OnGone, OnLeave;
      ghost var t := View();
      DistinctSlots(t);
      LeaveUnfolds(t, ready, got, 0);
      var rd := ready;
      for i := 0 to BACKLOG
        invariant Valid() && View() == OnLeave(t, ready, got, i)
        invariant forall j | i <= j < BACKLOG && t.slots[j] != FREE :: t.slots[j] in rd <==> t.slots[j] in ready
      {
        LeaveStep(t, ready, got, i);
        assert fds[i] == View().slots[i] == t.slots[i];
        if fds[i] != FREE && fds[i] in rd {
          var ret := got(i);
          if ret <= 0 {
            rd := rd - {fds[i]};
            CloseSlot(i);
          }
        }
      }
      LeaveKeeps(t, ready, got, BACKLOG);
      assert forall i | 0 <= i < BACKLOG :: fds[i] == View().slots[i] && old(fds[i]) == t.slots[i];
    }

    // ---- requests

    method RequestAll(ghost sktNo: int, len: int)
      requires Valid() && (sktNo == 0 || sktNo == -1)
      modifies this`allSnd, this`asked, this`sent, sndLen
      ensures Valid() && State() == OnRequest(old(State()), sktNo, len)
    {
      hide Inv;
      allSnd := 1;
      for i := 0 to BACKLOG
        invariant Valid() && allSnd == 1
        invariant forall j | 0 <= j < i :: sndLen[j] == asked[j] == len && sent[j] == 0
      {
        sndLen[i] := len;
        asked, sent := asked[i := len], sent[i := 0];
      }
    }

    /** Lines 347-358 for one slot. */
    method RequestSlot(i: nat, sktNo: int, len: int)
      requires Arrays() && i < BACKLOG
      modifies this`asked, this`sent, ifSnd, sndLen
      ensures Arrays()
      ensures var hit := fds[i] != FREE && fds[i] == sktNo;
        && asked == (if hit then old(asked)[i := len] else old(asked))
        && sent == (if hit then old(sent)[i := 0] else old(sent))
        && sndLen[i] == (if hit then len else old(sndLen[i]))
        && ifSnd[i] == (if hit then 1 else if fds[i] == FREE then old(ifSnd[i]) else 0)
      ensures forall j | 0 <= j < BACKLOG && j != i :: sndLen[j] == old(sndLen[j]) && ifSnd[j] == old(ifSnd[j])
    {
      if fds[i] != FREE {
        if sktNo == fds[i] {
          ifSnd[i] := 1;
          sndLen[i] := len;
          asked, sent := asked[i := len], sent[i := 0];
        } else {
          ifSnd[i] := 0;
        }
      }
    }

    method RequestOne(sktNo: int, len: int)
      requires Valid() && sktNo != 0 && sktNo != FREE
      modifies this`allSnd, this`asked, this`sent, ifSnd, sndLen
      ensures Valid() && State() == OnRequest(old(State()), sktNo, len)
    {
      hide Inv;
      allSnd := 0;
      ghost var s := old(State());
      for i := 0 to BACKLOG
        invariant Valid() && allSnd == 0
        invariant forall j | i <= j < BACKLOG ::
          sndLen[j] == s.left[j] && asked[j] == s.asked[j] && sent[j] == s.sent[j] && ifSnd[j] == s.ifSnd[j]
        invariant forall j | 0 <= j < i && fds[j] == sktNo ::
          sndLen[j] == asked[j] == len && sent[j] == 0 && ifSnd[j] == 1
        invariant forall j | 0 <= j < i && fds[j] != sktNo ::
          && sndLen[j] == s.left[j] && asked[j] == s.asked[j] && sent[j] == s.sent[j]
          && ifSnd[j] == if fds[j] == FREE then s.ifSnd[j] else 0
      {
        RequestSlot(i, sktNo, len);
      }
    }

    /** sck_s_send_data_demo without UART forwarding: every slot, or the one slot of a descriptor, gets the
        length, -1 for unlimited. */
    method RequestSend(sktNo: int, len: int)
      requires Valid()
      modifies this`allSnd, this`asked, this`sent, ifSnd, sndLen
      ensures Valid() && State() == OnRequest(old(State()), sktNo, len)
      ensures old(Intact(State())) && len >= -1 ==> Intact(State())
      ensures sktNo == 0 || sktNo == -1 ==>
        allSnd == 1 && forall i: nat | i < BACKLOG :: sndLen[i] == asked[i] == len && sent[i] == 0
      ensures sktNo != 0 && sktNo != -1 ==> allSnd == 0
      ensures sktNo != 0 && sktNo != -1 ==> forall i: nat | i < BACKLOG && fds[i] == sktNo ::
        sndLen[i] == asked[i] == len && sent[i] == 0 && ifSnd[i] == 1
      ensures sktNo != 0 && sktNo != -1 ==> forall i: nat | i < BACKLOG && fds[i] != sktNo ::
        sndLen[i] == old(sndLen[i]) && asked[i] == old(asked)[i] && sent[i] == old(sent)[i]
      ensures sktNo != 0 && sktNo != -1 ==> forall i: nat | i < BACKLOG && fds[i] != sktNo && fds[i] != FREE :: ifSnd[i] == 0
    {
      hide Inv, OnRequest, Intact;
      ghost var s := State();
      if sktNo == 0 || sktNo == -1 {
        RequestAll(sktNo, len);
      } else {
        RequestOne(sktNo, len);
      }
      RequestMeans(s, sktNo, len);
      assert forall i: nat | i < BACKLOG ::
        fds[i] == s.table.slots[i] && sndLen[i] == State().left[i] && ifSnd[i] == State().ifSnd[i];
      if Intact(s) && len >= -1 {
        ActIntact(s, Request(sktNo, len));
      }
    }

    // ---- sending

    method SelectSet() returns (fdsr: set<int>)
      requires Valid()
      ensures fdsr == Candidates(State())
      ensures forall i: nat | i < BACKLOG && fds[i] != FREE ::
        fds[i] in fdsr <==> sndLen[i] != 0 && (ifSnd[i] == 1 || allSnd == 1)
      ensures forall fd <- fdsr :: fd in fds[..] && fd != FREE
    {
      ghost var s := State();
      fdsr := {};
      for i := 0 to BACKLOG
        invariant forall j: nat | j < i && Candidate(s, j) :: fds[j] in fdsr
        invariant forall fd <- fdsr :: exists j: nat | j < i :: fds[j] == fd && Candidate(s, j)
      {
        if fds[i] != FREE && sndLen[i] != 0 && (ifSnd[i] == 1 || allSnd == 1) {
          fdsr := fdsr + {fds[i]};
        }
      }
      assert forall j | 0 <= j < BACKLOG :: fds[j] == s.table.slots[j] && sndLen[j] == s.left[j] && ifSnd[j] == s.ifSnd[j];
      CandidatesAre(s, fdsr);
    }

    /** Lines 263-309 for one slot. */
    method ServeSlot(ready: set<int>, took: (nat, int) -> int, i: nat, ghost slots: seq<Slot>, ghost len: int)
      returns (chunk: seq<int>)
      requires Arrays() && i < BACKLOG == |slots| && sendLen == LenAt(len, slots, i)
      requires slots[i] == Slot(fds[i] != FREE && fds[i] in ready && (ifSnd[i] == 1 || allSnd == 1), sndLen[i])
      modifies this`sent, this`sendLen, sndLen
      ensures Arrays() && sendLen == LenAt(len, slots, i + 1)
      ensures sndLen[..] == old(sndLen[..])[i := LeftAfter(len, slots, took, i)]
      ensures sent == old(sent)[i := old(sent)[i] + SentBy(len, slots, took, i)]
      ensures chunk == if slots[i].hit then [sendLen] else []
      ensures slots[i].hit && old(sndLen[i]) != 0 ==>
        chunk == [if old(sndLen[i]) == -1 || old(sndLen[i]) > 1024 then 1024 else old(sndLen[i])]
    {
      chunk := [];
      if fds[i] == FREE || (ifSnd[i] == 0 && allSnd == 0) {
      } else if fds[i] in ready {
        if sndLen[i] == -1 {
          sendLen := CHUNK;
        } else if sndLen[i] != 0 {
          sendLen := if sndLen[i] > CHUNK then CHUNK else sndLen[i];
        }
        chunk := [sendLen];
        var ret := took(i, sendLen);
        if ret != -1 {
          sent := sent[i := sent[i] + ret];
          if sndLen[i] != -1 {
            sndLen[i] := sndLen[i] - ret;
          }
        }
      }
    }

    /** The loop of the pass. */
    method ServeAll(ready: set<int>, took: (nat, int) -> int) returns (chunks: seq<int>)
      requires Valid()
      modifies this`sent, this`sendLen, sndLen
      ensures Valid() && State() == OnPass(old(State()), ready, took)
      ensures old(Intact(State())) && 1 <= old(sendLen) <= CHUNK ==>
        1 <= sendLen <= CHUNK && forall n <- chunks :: 1 <= n <= CHUNK
    {
      hide Inv, LenAt, LeftAfter, SentBy, IntactIn;
      ghost var s, slots, len := State(), Slots(State(), ready), sendLen;
      ghost var safe := Intact(s) && 1 <= sendLen <= CHUNK;
      chunks := [];
      PassLengths(len, slots, asked, sent, sndLen[..]);
      for i := 0 to BACKLOG
        invariant Valid() && sendLen == LenAt(len, slots, i)
        invariant forall j | i <= j < BACKLOG :: sndLen[j] == s.left[j] && sent[j] == s.sent[j]
        invariant forall j | 0 <= j < i :: sndLen[j] == LeftAfter(len, slots, took, j)
        invariant forall j | 0 <= j < i :: sent[j] == s.sent[j] + SentBy(len, slots, took, j)
        invariant safe ==> forall n <- chunks :: 1 <= n <= CHUNK
      {
        var chunk := ServeSlot(ready, took, i, slots, len);
        chunks := chunks + chunk;
      }
    }

    /** Lines 261-310, one pass over the ready descriptors; took(i, len) is what send returns. Exactly the ready,
        targeted connections are served. From an intact ledger, bytes are conserved in any case, and the ledger
        stays intact if and only if no served slot with nothing left takes bytes. */
    method SendPass(ready: set<int>, took: (nat, int) -> int) returns (chunks: seq<int>)
      requires Valid() && SendsAtMost(took)
      modifies this`sent, this`sendLen, sndLen
      ensures Valid() && State() == OnPass(old(State()), ready, took)
      ensures old(Intact(State())) ==>
        Conserved(State()) && (Intact(State()) <==> CleanPass(old(State()), ready, took))
      ensures old(Intact(State())) && 1 <= old(sendLen) <= CHUNK ==>
        1 <= sendLen <= CHUNK && forall n <- chunks :: 1 <= n <= CHUNK
      ensures forall i: nat | i < BACKLOG && !(fds[i] != FREE && fds[i] in ready && (ifSnd[i] == 1 || allSnd == 1)) ::
        sndLen[i] == old(sndLen[i]) && sent[i] == old(sent)[i]
      ensures forall i: nat | i < BACKLOG && fds[i] != FREE && fds[i] in ready && (ifSnd[i] == 1 || allSnd == 1) ::
        Served(old(sndLen[i]), old(sent)[i], sndLen[i], sent[i], took, i)
    {
      hide Inv, IntactIn, ConservedIn, CleanPass, SendsAtMost, OnPass, Served;
      ghost var s := State();
      chunks := ServeAll(ready, took);
      if Intact(s) {
        PassIntact(s, ready, took);
      }
      PassMeans(s, ready, took);
      assert forall i: nat | i < BACKLOG :: sndLen[i] == State().left[i] && old(sndLen[i]) == s.left[i];
      assert forall i: nat | i < BACKLOG :: fds[i] == s.table.slots[i] && ifSnd[i] == s.ifSnd[i];
    }

    /** Something that happens in another task while the send task waits in select. */
    method Perform(act: Act)
      requires Valid()
      modifies this`connNum, this`accepted, this`closed, this`allSnd, this`asked, this`sent, fds, ifSnd, sndLen
      ensures Valid() && State() == OnAct(old(State()), act)
      ensures act.Request? ==> State() == OnRequest(old(State()), act.sktNo, act.len)
      ensures act.NewClient? && act.fd > 0 && act.fd in old(fds[..]) ==> State() == old(State())
      ensures act.NewClient? && act.fd > 0 && act.fd !in old(fds[..]) && old(connNum) < BACKLOG ==>
        connNum == old(connNum) + 1 && act.fd in fds[..]
      ensures act.Departures? ==>
        forall i: nat | i < BACKLOG :: fds[i] == FREE <==> old(fds[i]) == FREE || old(fds[i]) in act.gone
    {
      hide Inv, OnRequest, OnAccept, OnLeave;
      match act {
        case Request(sktNo, len) =>
          RequestSend(sktNo, len);
        case NewClient(fd) =>
          if fd <= 0 || fd !in fds[..] {
            ghost var was := fds[..];
            Accept(fd);
            if fd > 0 && old(connNum) < BACKLOG {
              ghost var i: nat :| i < BACKLOG && fds[..] == was[i := fd];
              assert fds[..][i] == fd;
            }
          }
        case Departures(gone) =>
          ReceivePass(gone, _ => 0);
      }
    }

    method PerformAll(acts: seq<Act>)
      requires Valid()
      modifies this`connNum, this`accepted, this`closed, this`allSnd, this`asked, this`sent, fds, ifSnd, sndLen
      ensures Valid() && State() == OnActs(old(State()), acts)
    {
      hide Inv, OnAct;
      for i := 0 to |acts|
        invariant Valid() && State() == OnActs(old(State()), acts[..i])
      {
        assert acts[..i + 1][..i] == acts[..i];
        Perform(acts[i]);
      }
      assert acts[..|acts|] == acts;
    }

    /** What happens during the wait of a round, and the pass after it. */
    method RunRound(l: Loop, round: nat, ready: set<int>)
      requires Valid() && SendsAtMost(Took(l, round))
      modifies this`connNum, this`accepted, this`closed, this`allSnd, this`asked, this`sent, this`sendLen, fds, ifSnd, sndLen
      ensures Valid() && State() == OnPass(OnActs(old(State()), Acts(l, round)), ready, Took(l, round))
    {
      hide Inv, Intact, OnActs, OnPass, SendsAtMost, Served, CleanPass, Conserved;
      LoopMeans(l, round);
      PerformAll(if round < |l.busy| then l.busy[round] else []);
      var _ := SendPass(ready, Took(l, round));
    }

    /** Lines 199-311, with any clients coming and going and any requests arriving during its first waits.
        If every pass of those rounds is clean, no request is unlimited after them, and from then on every
        ready send takes at least one byte, the loop ends, and on every connected and targeted slot exactly
        what was last asked for that slot has been sent. */
    method SendLoop(l: Loop)
      requires Valid() && Intact(State()) && Sane(l)
      requires CleanSoFar(State(), l, |l.busy|) && Limited(Rounds(State(), l, |l.busy|))
      requires forall r: nat, c: set<int> :: c != {} ==> l.select(r, c) != {} && l.select(r, c) <= c
      requires forall r: nat, i: nat, n: int :: r >= |l.busy| && n >= 1 ==> l.took(r, i, n) >= 1
      modifies this`connNum, this`accepted, this`closed, this`allSnd, this`asked, this`sent, this`sendLen, fds, ifSnd, sndLen
      ensures Valid() && Intact(State())
      ensures forall i: nat | i < BACKLOG && fds[i] != FREE && Targeted(State(), i) :: sndLen[i] == 0 && sent[i] == asked[i]
    {
      hide Inv, Sum, Intact, CleanSoFar, Limited, Rounds, OnActs, OnPass, Candidates, SendsAtMost;
      ghost var s := State();
      LoopIntact(s, l, |l.busy|);
      assert Intact(Rounds(s, l, |l.busy|));
      RoundZero(s, l);
      var round: nat := 0;
      while true
        invariant Valid() && State() == Rounds(s, l, round)
        invariant round >= |l.busy| ==> Intact(State()) && Limited(State())
        decreases if round < |l.busy| then |l.busy| - round else 0, Sum(State().left)
      {
        var fdsr := SelectSet();
        if fdsr == {} {
          if round < |l.busy| {
            LoopLeft(s, l, round, |l.busy|);
          }
          break;
        }
        RoundStep(s, l, round);
        if round >= |l.busy| {
          QuietRound(s, l, round);
        }
        var ready := l.select(round, fdsr);
        RunRound(l, round, ready);
        round := round + 1;
      }
      AllSent(State());
      assert forall i | 0 <= i < BACKLOG :: sndLen[i] == State().left[i];
    }
  }

  // ---- how a length turns into the unlimited one

  /** A server with one client, descriptor 5. */
  method OneClient() returns (s: Server)
    ensures fresh(s) && fresh(s.fds) && fresh(s.ifSnd) && fresh(s.sndLen)
    ensures s.Valid() && s.sendLen == CHUNK && s.fds[0] == 5
  {
    s := new Server();
    hide Inv, Occupied, Held, OnAdmit;
    FirstClient(5);
    s.Accept(5);
    assert s.View().slots[0] == 5;
  }

  lemma FirstClient(fd: int)
    requires fd > 0
    ensures fd !in EMPTY && OnAccept(INIT, fd).slots == EMPTY[0 := fd] && OnAccept(INIT, fd).connNum == 1
  {
  }

  /** One client with ten bytes requested is put into the select set; a request of length 0 arrives during
      the wait; the pass then sends one byte, and the length of 0 has become the unlimited one. */
  method ZeroRequestDuringSelect() returns (left: int)
    ensures left == UNLIMITED
  {
    var s := OneClient();
    hide Inv, Intact, Conserved, CleanPass, OnRequest;
    s.RequestSend(5, 10);
    var fdsr := s.SelectSet();
    assert Candidate(s.State(), 0);
    s.RequestSend(0, 0);
    var took := (i: nat, n: int) => if n >= 1 then 1 else 0;
    EmptySlotSends(s.State(), fdsr, took);
    var _ := s.SendPass(fdsr, took);
    left := s.sndLen[0];
    assert left == s.State().left[0];
  }

  lemma EmptySlotSends(s: Sender, ready: set<int>, took: (nat, int) -> int)
    requires Shape(s) && s.table.slots[0] != FREE && s.table.slots[0] in ready && Targeted(s, 0)
    requires s.left[0] == 0 && s.len >= 1 && took(0, s.len) == 1
    ensures OnPass(s, ready, took).left[0] == UNLIMITED
  {
    var slots := Slots(s, ready);
    assert LenAt(s.len, slots, 0) == s.len && slots[0] == Slot(true, 0);
  }

  /** Clients with descriptors 2 and 1 in slots 0 and 1, ten bytes requested for both, the first ten and one of
      them sent. */
  method TwoServed() returns (s: Server)
    ensures fresh(s) && fresh(s.fds) && fresh(s.ifSnd) && fresh(s.sndLen)
    ensures s.Valid() && s.View().slots == EMPTY[0 := 2][1 := 1] && s.allSnd == 1
    ensures s.sndLen[0] == 0 && s.sndLen[1] == 9 && s.sendLen >= 1
  {
    s := new Server();
    hide Inv, Occupied, Held, OnAdmit, Intact, Conserved, CleanPass, OnRequest, OnPass;
    TwoClients();
    s.Accept(2);
    s.Accept(1);
    AllAreTargeted(s.State(), 10);
    s.RequestSend(-1, 10);
    var took := (i: nat, n: int) => if n < 1 then 0 else if i == 0 then n else 1;
    ghost var before := s.State();
    TenAndOne(before, took);
    var _ := s.SendPass({1, 2}, took);
    assert s.sndLen[0] == s.State().left[0] && s.sndLen[1] == s.State().left[1];
  }

  /** Of those two clients only descriptor 1 is put into the next select set. During the wait both leave and a
      third gets descriptor 1 and slot 0, where nothing is left; the pass then sends it one byte, and its
      length has become the unlimited one. No request of length 0 was made. */
  method ReusedDescriptor() returns (left: int)
    ensures left == UNLIMITED
  {
    var s := TwoServed();
    hide Inv, OnAccept, Intact, Conserved, CleanPass, OnPass, OnLeave;
    var fdsr := s.SelectSet();
    assert s.fds[1] == s.View().slots[1] == 1 && s.fds[0] == s.View().slots[0] == 2;
    assert Candidate(s.State(), 1);
    s.ReceivePass({1, 2}, _ => 0);
    assert s.View().slots == EMPTY;
    EmptyAccepts(s.View(), 1);
    s.Accept(1);
    assert s.fds[0] == s.View().slots[0] == 1;
    var took := (i: nat, n: int) => if n >= 1 then 1 else 0;
    EmptySlotSends(s.State(), fdsr, took);
    var _ := s.SendPass(fdsr, took);
    left := s.sndLen[0];
    assert left == s.State().left[0];
  }

  lemma EmptyAccepts(t: Table, fd: int)
    requires Inv(t) && t.slots == EMPTY && fd > 0
    ensures fd !in t.slots && OnAccept(t, fd).slots == EMPTY[0 := fd]
  {
    EmptyTable();
  }

  lemma AllAreTargeted(s: Sender, n: int)
    requires Shape(s)
    ensures OnRequest(s, -1, n).allSnd == 1
  {
  }

  lemma TwoClients()
    ensures 2 !in EMPTY && 1 !in EMPTY[0 := 2]
    ensures var t := OnAccept(OnAccept(INIT, 2), 1);
      OnAccept(INIT, 2).slots == EMPTY[0 := 2] && t.slots == EMPTY[0 := 2][1 := 1] && t.connNum == 2
  {
    FirstClient(2);
    var t := OnAccept(INIT, 2);
    assert FirstFree(t.slots, 0) == FirstFree(t.slots, 1) == 1;
  }

  lemma TenAndOne(s: Sender, took: (nat, int) -> int)
    requires Shape(s) && s.table.slots[0] == 2 && s.table.slots[1] == 1 && Targeted(s, 0) && Targeted(s, 1)
    requires 1 <= s.len <= CHUNK && (forall i | 0 <= i < BACKLOG :: s.left[i] == 10) && took(0, 10) == 10 && took(1, 10) == 1
    ensures var r := OnPass(s, {1, 2}, took); r.left[0] == 0 && r.left[1] == 9 && r.len >= 1
  {
    var slots := Slots(s, {1, 2});
    assert slots[0] == Slot(true, 10) && slots[1] == Slot(true, 10);
    LenInRange(s.len, slots, BACKLOG);
  }
}
