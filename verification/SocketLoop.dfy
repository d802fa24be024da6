/** The send task of demo/wm_socket_server_demo.c against the other tasks: the waits in select, what may
    happen during them, and what every pass leaves of the requests. */
module SocketLoop {
  import opened CTypes
  import opened SocketTable
  import opened SocketHandlers
  import opened SocketSend

  type Flag = f: int | 0 <= f <= 1

  /** left is snd_data_len and len the send task's local, kept from pass to pass; asked and sent are
      history: what was requested for every slot, and how much of it was sent since. */
  datatype Sender = Sender(
    table: Table, ifSnd: seq<Flag>, allSnd: Flag, left: seq<int>, asked: seq<int>, sent: seq<int>, len: int)

  predicate Shape(s: Sender) {
    |s.table.slots| == |s.ifSnd| == |s.left| == |s.asked| == |s.sent| == BACKLOG
  }

  predicate Targeted(s: Sender, i: nat)
    requires Shape(s) && i < BACKLOG
  {
    s.ifSnd[i] == 1 || s.allSnd == 1
  }

  /** Lines 208-209: the slot has something to send. */
  predicate Candidate(s: Sender, i: nat)
    requires Shape(s) && i < BACKLOG
  {
    s.table.slots[i] != FREE && s.left[i] != 0 && Targeted(s, i)
  }

  /** The descriptors put into the select set. */
  function Candidates(s: Sender): set<int>
    requires Shape(s)
  {
    set i: nat | i < BACKLOG && Candidate(s, i) :: s.table.slots[i]
  }

  lemma CandidatesAre(s: Sender, fdsr: set<int>)
    requires Shape(s) && forall j: nat | j < BACKLOG && Candidate(s, j) :: s.table.slots[j] in fdsr
    requires forall fd <- fdsr :: exists j: nat | j < BACKLOG :: s.table.slots[j] == fd && Candidate(s, j)
    ensures fdsr == Candidates(s)
  {
    hide Candidate;
    forall fd <- fdsr ensures fd in Candidates(s) {
      var j: nat :| j < BACKLOG && s.table.slots[j] == fd && Candidate(s, j);
    }
  }

  // ---- the other tasks

  /** What may happen while the send task waits. */
  datatype Act =
    | Request(sktNo: int, len: int)
    | NewClient(fd: int)
    | Departures(gone: set<int>)

  predicate Requested(slots: seq<int>, sktNo: int, i: nat)
    requires i < |slots|
  {
    sktNo == 0 || sktNo == -1 || (sktNo == slots[i] && slots[i] != FREE)
  }

  /** sck_s_send_data_demo without UART forwarding. */
  function OnRequest(s: Sender, sktNo: int, n: int): (r: Sender)
    requires Shape(s)
    ensures Shape(r)
  {
    var hit := (i: nat) requires i < BACKLOG => Requested(s.table.slots, sktNo, i);
    var s := s.(left := seq(BACKLOG, i requires 0 <= i < BACKLOG => if hit(i) then n else s.left[i]),
                asked := seq(BACKLOG, i requires 0 <= i < BACKLOG => if hit(i) then n else s.asked[i]),
                sent := seq(BACKLOG, i requires 0 <= i < BACKLOG => if hit(i) then 0 else s.sent[i]));
    if sktNo == 0 || sktNo == -1 then s.(allSnd := 1)
    else s.(allSnd := 0,
            ifSnd := seq(BACKLOG, i requires 0 <= i < BACKLOG =>
              if s.table.slots[i] == FREE then s.ifSnd[i] else if s.table.slots[i] == sktNo then 1 else 0))
  }

  lemma RequestMeans(s: Sender, sktNo: int, n: int)
    requires Shape(s)
    ensures var r, slots, all := OnRequest(s, sktNo, n), s.table.slots, sktNo == 0 || sktNo == -1;
      && r.table == s.table && r.allSnd == (if all then 1 else 0)
      && (forall i: nat | i < BACKLOG && (all || slots[i] == sktNo) :: r.left[i] == r.asked[i] == n && r.sent[i] == 0)
      && (forall i: nat | i < BACKLOG && !all && slots[i] != sktNo ::
            r.left[i] == s.left[i] && r.asked[i] == s.asked[i] && r.sent[i] == s.sent[i])
      && (forall i: nat | i < BACKLOG && !all && slots[i] != FREE :: r.ifSnd[i] == if slots[i] == sktNo then 1 else 0)
  {
  }

  /** accept never returns a descriptor that is still open in the table. */
  function OnAct(s: Sender, act: Act): (r: Sender)
    requires Shape(s)
    ensures Shape(r)
  {
    match act
    case Request(sktNo, n) => OnRequest(s, sktNo, n)
    case NewClient(fd) => if fd > 0 && fd in s.table.slots then s else s.(table := OnAccept(s.table, fd))
    case Departures(gone) => s.(table := OnLeave(s.table, gone, _ => 0, BACKLOG))
  }

  function OnActs(s: Sender, acts: seq<Act>): (r: Sender)
    requires Shape(s)
    ensures Shape(r)
  {
    if acts == [] then s else OnAct(OnActs(s, acts[..|acts| - 1]), acts[|acts| - 1])
  }

  lemma ActsMeans(s: Sender, acts: seq<Act>, act: Act)
    requires Shape(s)
    ensures OnActs(s, []) == s && OnActs(s, acts + [act]) == OnAct(OnActs(s, acts), act)
  {
    assert (acts + [act])[..|acts|] == acts;
  }

  // ---- one pass

  /** The slots as a pass over these ready descriptors finds them. */
  function Slots(s: Sender, ready: set<int>): (slots: seq<Slot>)
    requires Shape(s)
    ensures |slots| == BACKLOG && LeftOf(slots, s.left)
  {
    seq(BACKLOG, i requires 0 <= i < BACKLOG =>
      Slot(s.table.slots[i] != FREE && s.table.slots[i] in ready && Targeted(s, i), s.left[i]))
  }

  /** Lines 261-310. */
  function OnPass(s: Sender, ready: set<int>, took: (nat, int) -> int): (r: Sender)
    requires Shape(s)
    ensures Shape(r)
  {
    var slots := Slots(s, ready);
    s.(left := seq(BACKLOG, i requires 0 <= i < BACKLOG => LeftAfter(s.len, slots, took, i)),
       sent := seq(BACKLOG, i requires 0 <= i < BACKLOG => s.sent[i] + SentBy(s.len, slots, took, i)),
       len := LenAt(s.len, slots, BACKLOG))
  }

  /** A ready, targeted connection with something to send: it is offered at most 1024 bytes, and what is taken is
      counted and subtracted, except from an unlimited length. */
  ghost predicate Served(left: int, sent: int, left': int, sent': int, took: (nat, int) -> int, i: nat) {
    left != 0 ==>
      var r := took(i, if left == -1 || left > 1024 then 1024 else left);
      if r == -1 then left' == left && sent' == sent
      else left' == (if left == -1 then -1 else left - r) && sent' == sent + r
  }

  lemma PassMeans(s: Sender, ready: set<int>, took: (nat, int) -> int)
    requires Shape(s)
    ensures var r, slots := OnPass(s, ready, took), s.table.slots;
      && (forall i: nat | i < BACKLOG && !(slots[i] != FREE && slots[i] in ready && (s.ifSnd[i] == 1 || s.allSnd == 1)) ::
            r.left[i] == s.left[i] && r.sent[i] == s.sent[i])
      && (forall i: nat | i < BACKLOG && slots[i] != FREE && slots[i] in ready && (s.ifSnd[i] == 1 || s.allSnd == 1) ::
            Served(s.left[i], s.sent[i], r.left[i], r.sent[i], took, i))
  {
    hide LenAt, LeftAfter, SentBy, Ret;
    var slots := Slots(s, ready);
    forall i: nat | i < BACKLOG
      ensures !slots[i].hit ==> LeftAfter(s.len, slots, took, i) == s.left[i] && SentBy(s.len, slots, took, i) == 0
      ensures slots[i].hit ==>
        Served(s.left[i], s.sent[i], LeftAfter(s.len, slots, took, i), s.sent[i] + SentBy(s.len, slots, took, i), took, i)
    {
      SlotMeans(s.len, slots, took, i, s.left[i], Ret(s.len, slots, took, i));
    }
  }

  /** Every request is what was sent plus what remains, and no finite one has turned into a negative or
      unlimited one. */
  ghost predicate Intact(s: Sender)
    requires Shape(s)
  {
    IntactIn(s.asked, s.sent, s.left)
  }

  ghost predicate Conserved(s: Sender)
    requires Shape(s)
  {
    ConservedIn(s.asked, s.sent, s.left)
  }

  /** No slot of length 0 is served and takes bytes all the same. */
  ghost predicate CleanPass(s: Sender, ready: set<int>, took: (nat, int) -> int)
    requires Shape(s)
  {
    NoEmptySlotSends(s.len, Slots(s, ready), took)
  }

  lemma PassIntact(s: Sender, ready: set<int>, took: (nat, int) -> int)
    requires Shape(s) && Intact(s) && SendsAtMost(took)
    ensures Conserved(OnPass(s, ready, took))
    ensures Intact(OnPass(s, ready, took)) <==> CleanPass(s, ready, took)
  {
    hide IntactIn, ConservedIn, NoEmptySlotSends, LeftAfter, SentBy, LenAt, SendsAtMost;
    var r := OnPass(s, ready, took);
    PassLedger(s.len, Slots(s, ready), took, s.asked, s.sent, r.sent, s.left, r.left);
  }

  // ---- requests and clients during a wait

  lemma ActIntact(s: Sender, act: Act)
    requires Shape(s) && Intact(s) && (act.Request? ==> act.len >= -1)
    ensures Intact(OnAct(s, act))
  {
    hide OnAccept, OnLeave;
  }

  predicate Legal(acts: seq<Act>) { forall a <- acts :: a.Request? ==> a.len >= -1 }

  lemma {:induction false} ActsIntact(s: Sender, acts: seq<Act>)
    requires Shape(s) && Intact(s) && Legal(acts)
    ensures Intact(OnActs(s, acts))
  {
    if acts != [] {
      ActsIntact(s, acts[..|acts| - 1]);
      ActIntact(OnActs(s, acts[..|acts| - 1]), acts[|acts| - 1]);
    }
  }

  lemma {:induction false} ActsKeepTable(s: Sender, acts: seq<Act>)
    requires Shape(s) && Inv(s.table)
    ensures Inv(OnActs(s, acts).table)
  {
    if acts != [] {
      var before, a := OnActs(s, acts[..|acts| - 1]), acts[|acts| - 1];
      ActsKeepTable(s, acts[..|acts| - 1]);
      hide Inv;
      match a {
        case Request(_, _) =>
        case NewClient(fd) =>
          if fd <= 0 || fd !in before.table.slots {
            AcceptKeeps(before.table, fd);
          }
        case Departures(gone) => LeaveKeeps(before.table, gone, _ => 0, BACKLOG);
      }
    }
  }

  /** Every slot whose descriptor was put into the select set still has something to send. */
  ghost predicate Hot(s: Sender, fdsr: set<int>)
    requires Shape(s)
  {
    forall i: nat | i < BACKLOG && s.table.slots[i] != FREE && s.table.slots[i] in fdsr :: s.left[i] != 0
  }

  /** What empties a slot of the select set during the wait: a request of length 0, or a newcomer that gets
      the descriptor number of the set and a slot with nothing left. */
  ghost predicate Cools(s: Sender, act: Act, fdsr: set<int>)
    requires Shape(s)
  {
    match act
    case Request(sktNo, n) =>
      n == 0 && exists i: nat :: i < BACKLOG && s.table.slots[i] != FREE && s.table.slots[i] in fdsr
                                 && Requested(s.table.slots, sktNo, i)
    case NewClient(fd) =>
      && fd > 0 && fd !in s.table.slots && fd in fdsr && s.table.connNum < BACKLOG
      && FirstFree(s.table.slots, 0) < BACKLOG && s.left[FirstFree(s.table.slots, 0)] == 0
    case Departures(_) => false
  }

  lemma HotUnless(s: Sender, act: Act, fdsr: set<int>)
    requires Shape(s) && Inv(s.table) && Hot(s, fdsr)
    ensures Hot(OnAct(s, act), fdsr) <==> !Cools(s, act, fdsr)
  {
    match act {
      case Request(sktNo, n) =>
        hide Inv;
        var r := OnRequest(s, sktNo, n);
        assert forall i: nat | i < BACKLOG :: r.left[i] == if Requested(s.table.slots, sktNo, i) then n else s.left[i];
      case NewClient(fd) => NewcomerHot(s, fd, fdsr);
      case Departures(gone) => LeaveKeeps(s.table, gone, _ => 0, BACKLOG);
    }
  }

  lemma NewcomerHot(s: Sender, fd: int, fdsr: set<int>)
    requires Shape(s) && Hot(s, fdsr)
    ensures Hot(OnAct(s, NewClient(fd)), fdsr) <==> !Cools(s, NewClient(fd), fdsr)
  {
    var i := FirstFree(s.table.slots, 0);
    var r := OnAct(s, NewClient(fd));
    if fd > 0 && fd !in s.table.slots && s.table.connNum < BACKLOG && i < BACKLOG {
      assert r.table.slots == s.table.slots[i := fd] && r.table.slots[i] == fd && r.left == s.left;
    } else {
      assert r.table.slots == s.table.slots;
    }
  }

  /** A newcomer takes over its slot's length and target: it is sent the rest of an earlier client's
      request exactly when there is one. */
  lemma NewcomerInherits(s: Sender, fd: int)
    requires Shape(s) && Inv(s.table) && fd > 0 && fd !in s.table.slots && s.table.connNum < BACKLOG
    ensures var i := FirstFree(s.table.slots, 0);
      && i < BACKLOG && OnAct(s, NewClient(fd)).table.slots == s.table.slots[i := fd]
      && (Candidate(OnAct(s, NewClient(fd)), i) <==> s.left[i] != 0 && Targeted(s, i))
  {
    OccupiedBounds(s.table.slots);
  }

  // ---- the loop

  /** A run of the loop at lines 199-311: what the other tasks do during its first waits, what select
      returns in every round, and what send returns. */
  datatype Loop = Loop(busy: seq<seq<Act>>, select: (nat, set<int>) -> set<int>, took: (nat, nat, int) -> int)

  function Acts(l: Loop, r: nat): seq<Act> { if r < |l.busy| then l.busy[r] else [] }

  function Took(l: Loop, r: nat): (nat, int) -> int { (i: nat, n: int) => l.took(r, i, n) }

  lemma LoopMeans(l: Loop, r: nat)
    ensures Acts(l, r) == if r < |l.busy| then l.busy[r] else []
  {
  }

  lemma TookMeans(l: Loop, r: nat, i: nat, n: int)
    ensures Took(l, r)(i, n) == l.took(r, i, n)
  {
  }

  /** The slots as the pass of round r finds them, after the wait. */
  function Mid(s: Sender, l: Loop, r: nat): (m: Sender)
    requires Shape(s)
    ensures Shape(m)
  {
    OnActs(Rounds(s, l, r), Acts(l, r))
  }

  function Ready(s: Sender, l: Loop, r: nat): set<int>
    requires Shape(s)
  {
    l.select(r, Candidates(Rounds(s, l, r)))
  }

  /** After n rounds; the loop is left when nothing is to be sent. */
  function Rounds(s: Sender, l: Loop, n: nat): (r: Sender)
    requires Shape(s)
    ensures Shape(r)
    decreases n, 0
  {
    if n == 0 then s else
      var before := Rounds(s, l, n - 1);
      if Candidates(before) == {} then before
      else OnPass(OnActs(before, Acts(l, n - 1)), l.select(n - 1, Candidates(before)), Took(l, n - 1))
  }

  lemma RoundZero(s: Sender, l: Loop)
    requires Shape(s)
    ensures Rounds(s, l, 0) == s
  {
  }

  lemma RoundStep(s: Sender, l: Loop, r: nat)
    requires Shape(s) && Candidates(Rounds(s, l, r)) != {}
    ensures Rounds(s, l, r + 1) == OnPass(Mid(s, l, r), Ready(s, l, r), Took(l, r))
  {
  }

  /** Once nothing is to be sent the loop has been left. */
  lemma {:induction false} LoopLeft(s: Sender, l: Loop, r: nat, n: nat)
    requires Shape(s) && r <= n && Candidates(Rounds(s, l, r)) == {}
    ensures Rounds(s, l, n) == Rounds(s, l, r)
  {
    hide Candidates, OnPass, OnActs, Acts, Took;
    if r < n {
      LoopLeft(s, l, r, n - 1);
    }
  }

  /** No ready, targeted slot has length 0 after the wait of round r, or send takes nothing of it. */
  ghost predicate CleanRound(s: Sender, l: Loop, r: nat)
    requires Shape(s)
  {
    Candidates(Rounds(s, l, r)) != {} ==> CleanPass(Mid(s, l, r), Ready(s, l, r), Took(l, r))
  }

  predicate LegalLoop(l: Loop) { forall acts <- l.busy :: Legal(acts) }

  ghost predicate Sane(l: Loop) { LegalLoop(l) && forall r: nat :: SendsAtMost(Took(l, r)) }

  lemma ActsLegal(l: Loop, r: nat)
    requires LegalLoop(l)
    ensures Legal(Acts(l, r))
  {
    if r < |l.busy| {
      assert l.busy[r] in l.busy;
    }
  }

  lemma RoundIntact(s: Sender, l: Loop, r: nat)
    requires Shape(s) && Sane(l) && Intact(Rounds(s, l, r))
    ensures Intact(Rounds(s, l, r + 1)) <==> CleanRound(s, l, r)
  {
    hide Intact, CleanPass, OnActs, OnPass, Legal, SendsAtMost;
    ActsLegal(l, r);
    ActsIntact(Rounds(s, l, r), Acts(l, r));
    PassIntact(Mid(s, l, r), Ready(s, l, r), Took(l, r));
  }

  ghost predicate IntactSoFar(s: Sender, l: Loop, n: nat)
    requires Shape(s)
  {
    forall r: nat | r <= n :: Intact(Rounds(s, l, r))
  }

  ghost predicate CleanSoFar(s: Sender, l: Loop, n: nat)
    requires Shape(s)
  {
    forall r: nat | r < n :: CleanRound(s, l, r)
  }

  /** Over any number of rounds, with clients coming and going and requests arriving during the waits: the
      ledger is intact after every pass if and only if every pass is clean. */
  lemma {:induction false} LoopIntact(s: Sender, l: Loop, n: nat)
    requires Shape(s) && Intact(s) && Sane(l)
    ensures IntactSoFar(s, l, n) <==> CleanSoFar(s, l, n)
  {
    hide Intact, CleanRound, Sane, Rounds;
    RoundZero(s, l);
    if n > 0 {
      LoopIntact(s, l, n - 1);
      if IntactSoFar(s, l, n - 1) {
        assert Intact(Rounds(s, l, n - 1));
        RoundIntact(s, l, n - 1);
      } else {
        var r: nat :| r <= n - 1 && !Intact(Rounds(s, l, r));
        var c: nat :| c < n - 1 && !CleanRound(s, l, c);
      }
    }
  }

  lemma {:induction false} StaysHot(s: Sender, acts: seq<Act>, fdsr: set<int>)
    requires Shape(s) && Inv(s.table) && Hot(s, fdsr)
    requires forall k: nat | k < |acts| :: !Cools(OnActs(s, acts[..k]), acts[k], fdsr)
    ensures Hot(OnActs(s, acts), fdsr)
  {
    if acts != [] {
      var last := |acts| - 1;
      var front := acts[..last];
      forall k: nat | k < last ensures !Cools(OnActs(s, front[..k]), front[k], fdsr) {
        assert front[..k] == acts[..k];
      }
      hide Hot, Cools, Inv;
      StaysHot(s, front, fdsr);
      ActsKeepTable(s, front);
      HotUnless(OnActs(s, front), acts[last], fdsr);
    }
  }

  lemma HotIsClean(s: Sender, fdsr: set<int>, ready: set<int>, took: (nat, int) -> int)
    requires Shape(s) && Hot(s, fdsr) && ready <= fdsr
    ensures CleanPass(s, ready, took)
  {
    hide Ret;
  }

  lemma CandidatesHot(s: Sender)
    requires Shape(s) && Inv(s.table)
    ensures Hot(s, Candidates(s))
  {
    forall i: nat | i < BACKLOG && s.table.slots[i] != FREE && s.table.slots[i] in Candidates(s) ensures s.left[i] != 0 {
      var j: nat :| j < BACKLOG && Candidate(s, j) && s.table.slots[j] == s.table.slots[i];
      assert i == j;
    }
  }

  /** A round is clean if what select reports was put into its set and nothing cools during the wait. */
  lemma CleanUnlessCooled(s: Sender, l: Loop, r: nat)
    requires Shape(s) && Inv(Rounds(s, l, r).table) && Ready(s, l, r) <= Candidates(Rounds(s, l, r))
    requires var t, acts := Rounds(s, l, r), Acts(l, r);
      forall k: nat | k < |acts| :: !Cools(OnActs(t, acts[..k]), acts[k], Candidates(t))
    ensures CleanRound(s, l, r)
  {
    hide Hot, Cools, Inv, OnActs, Candidates, Rounds, CleanPass;
    var t := Rounds(s, l, r);
    CandidatesHot(t);
    StaysHot(t, Acts(l, r), Candidates(t));
    HotIsClean(Mid(s, l, r), Candidates(t), Ready(s, l, r), Took(l, r));
  }

  // ---- the end of the loop

  function Sum(xs: seq<int>): int {
    if xs == [] then 0 else Sum(xs[..|xs| - 1]) + xs[|xs| - 1]
  }

  lemma {:induction false} SumNonNegative(xs: seq<int>)
    requires forall i | 0 <= i < |xs| :: xs[i] >= 0
    ensures Sum(xs) >= 0
  {
    if xs != [] {
      SumNonNegative(xs[..|xs| - 1]);
    }
  }

  lemma {:induction false} SumDecreases(before: seq<int>, after: seq<int>, k: nat)
    requires |before| == |after| && k < |before| && after[k] < before[k]
    requires forall i | 0 <= i < |before| :: 0 <= after[i] <= before[i]
    ensures 0 <= Sum(after) < Sum(before)
  {
    var last := |before| - 1;
    SumNonNegative(after);
    if k < last {
      SumDecreases(before[..last], after[..last], k);
    } else {
      SumOrdered(before[..last], after[..last]);
    }
  }

  lemma {:induction false} SumOrdered(before: seq<int>, after: seq<int>)
    requires |before| == |after| && forall i | 0 <= i < |before| :: after[i] <= before[i]
    ensures Sum(after) <= Sum(before)
  {
    if before != [] {
      SumOrdered(before[..|before| - 1], after[..|after| - 1]);
    }
  }

  /** No request is unlimited. */
  ghost predicate Limited(s: Sender)
    requires Shape(s)
  {
    forall i | 0 <= i < BACKLOG :: s.asked[i] >= 0
  }

  /** A pass in which every ready send takes something, right after the select set was computed, brings
      the end nearer and is clean. */
  lemma QuietPass(s: Sender, ready: set<int>, took: (nat, int) -> int)
    requires Shape(s) && Inv(s.table) && Intact(s) && Limited(s)
    requires ready != {} && ready <= Candidates(s)
    requires SendsAtMost(took) && forall i: nat, n: int :: n >= 1 ==> took(i, n) >= 1
    ensures Intact(OnPass(s, ready, took)) && Limited(OnPass(s, ready, took))
    ensures 0 <= Sum(OnPass(s, ready, took).left) < Sum(s.left)
  {
    CandidatesHot(s);
    HotIsClean(s, Candidates(s), ready, took);
    PassIntact(s, ready, took);
    var r := OnPass(s, ready, took);
    AllLeft(s.asked, s.sent, s.left);
    AllLeft(r.asked, r.sent, r.left);
    hide Intact, CleanPass, SendsAtMost, Inv, LenAt;
    var fd := Pick(ready);
    var k: nat :| k < BACKLOG && Candidate(s, k) && s.table.slots[k] == fd;
    var slots := Slots(s, ready);
    forall i: nat | i < BACKLOG ensures r.left[i] <= s.left[i] && (slots[i].hit ==> r.left[i] < s.left[i]) {
      Progress(s.len, slots, took, i);
    }
    SumDecreases(s.left, r.left, k);
  }

  /** From the round on in which the other tasks are quiet, every round brings the end nearer. */
  lemma QuietRound(s: Sender, l: Loop, r: nat)
    requires Shape(s) && Sane(l) && r >= |l.busy| && Inv(Rounds(s, l, r).table)
    requires Intact(Rounds(s, l, r)) && Limited(Rounds(s, l, r)) && Candidates(Rounds(s, l, r)) != {}
    requires forall r: nat, c: set<int> :: c != {} ==> l.select(r, c) != {} && l.select(r, c) <= c
    requires forall r: nat, i: nat, n: int :: r >= |l.busy| && n >= 1 ==> l.took(r, i, n) >= 1
    ensures Intact(Rounds(s, l, r + 1)) && Limited(Rounds(s, l, r + 1))
    ensures 0 <= Sum(Rounds(s, l, r + 1).left) < Sum(Rounds(s, l, r).left)
  {
    hide Intact, Limited, Candidates, OnPass, Sum, Inv, Rounds, SendsAtMost;
    RoundStep(s, l, r);
    assert Mid(s, l, r) == Rounds(s, l, r);
    QuietPass(Rounds(s, l, r), Ready(s, l, r), Took(l, r));
  }

  lemma Pick(s: set<int>) returns (x: int)
    requires s != {}
    ensures x in s
  {
    assert (forall y :: y !in s) ==> s == {};
    x :| x in s;
  }

  /** When nothing is left to be sent, every targeted slot's request was sent exactly. */
  lemma AllSent(s: Sender)
    requires Shape(s) && Intact(s) && Limited(s) && Candidates(s) == {}
    ensures forall i: nat | i < BACKLOG && s.table.slots[i] != FREE && Targeted(s, i) ::
      s.left[i] == 0 && s.sent[i] == s.asked[i]
  {
    AllLeft(s.asked, s.sent, s.left);
    var all := Candidates(s);
    assert forall i: nat | i < BACKLOG && Candidate(s, i) :: s.table.slots[i] in all;
  }
}
