/** The session machine of demo/wm_websockets_demo.c: lwsRecvTask, the library callbacks that run inside
    its library calls, and demoLwsSend. */
module WebSocketSession {
  import opened CTypes

  const HZ: nat := 500
  const SEND_MSG_MIN: nat := 128

  datatype Phase = ExitSession | InitSession | SetUpSession | HandleSession

  datatype Life = Created(id: nat) | Destroyed(id: nat)

  /** A call of lws_write: the length it was given, and how many sends had come by then. */
  datatype Write = Write(given: nat, after: nat)

  /** pending says whether data_2send is non-NULL, dataLen is data_length; sends and writes are history: the
      length of every message sent on a connection, and every lws_write. */
  datatype Mail = Mail(pending: bool, dataLen: nat, sends: seq<nat>, writes: seq<Write>)

  const NO_MAIL := Mail(false, 0, [], [])

  /** context is lwscontext, handle says whether g_wsContext is non-NULL; created and log are history: how
      many contexts were made, and every creation and destruction. */
  datatype Session = Session(
    state: Phase, context: Option<nat>, handle: bool, watchDog: nat, oldTick: nat, mail: Mail,
    created: nat, log: seq<Life>)

  const INIT := Session(InitSession, None, false, 0, 0, NO_MAIL, 0, [])

  /** What can run inside a library call: a callback with its reason, or demoLwsSend in its own task. */
  datatype Callback =
    | Established
    | ConnectionError
    | Closed
    | Receive
    | Writeable(written: int)
    | OtherReason
    | SendMeanwhile(length: nat)

  /** data_length is set before the message is found to be too long. */
  function Posted(m: Mail, length: nat): Mail {
    Mail(m.pending || length < SEND_MSG_MIN, length, m.sends + [length], m.writes)
  }

  function Written(m: Mail): Mail {
    m.(pending := false, writes := m.writes + [Write(m.dataLen, |m.sends|)])
  }

  function OnSend(s: Session, length: nat): Session {
    if s.handle then s.(mail := Posted(s.mail, length)) else s
  }

  function OnCallback(s: Session, cb: Callback): Session {
    match cb
    case Established => s.(state := HandleSession)
    case ConnectionError => s.(state := ExitSession)
    case Closed => s.(state := ExitSession)
    case Receive => s
    case Writeable(n) =>
      var s := s.(watchDog := 0);
      if s.mail.pending then s.(state := if n <= 0 then ExitSession else s.state, mail := Written(s.mail)) else s
    case OtherReason => s
    case SendMeanwhile(length) => OnSend(s, length)
  }

  /** A library call that runs these callbacks, in this order. */
  function Callbacks(s: Session, cbs: seq<Callback>): Session {
    if cbs == [] then s else OnCallback(Callbacks(s, cbs[..|cbs| - 1]), cbs[|cbs| - 1])
  }

  /** What the world answers during one turn of lwsRecvTask: the network status, whether the library call
      succeeds, the tick count, and the callbacks run inside the library call. */
  datatype Turn = Turn(net: int, ok: bool, now: nat, cbs: seq<Callback>)

  datatype Event = Task(t: Turn) | Send(length: nat)

  predicate TickElapsed(s: Session, now: nat) { (now - s.oldTick) % 0x1_0000_0000 > HZ }

  function OnInit(s: Session, t: Turn): Session {
    if t.net != 1 then s
    else if s.context.None? then
      var s := Callbacks(s, t.cbs);
      var s := if t.ok then s.(context := Some(s.created), created := s.created + 1, log := s.log + [Created(s.created)])
               else s;
      s.(state := SetUpSession)
    else s.(state := ExitSession)
  }

  function OnSetUp(s: Session, t: Turn): Session {
    Callbacks(s, t.cbs).(handle := t.ok, state := if t.ok then HandleSession else ExitSession)
  }

  function Tick(s: Session, t: Turn): Session {
    if !TickElapsed(s, t.now) then s
    else if t.net != 0 then
      (if s.watchDog > 5 then s.(state := ExitSession) else s.(watchDog := s.watchDog + 1)).(oldTick := t.now)
    else s.(state := ExitSession)
  }

  function OnHandle(s: Session, t: Turn): Session { Callbacks(Tick(s, t), t.cbs) }

  function OnExit(s: Session, t: Turn): Session {
    var s := if s.context.Some? then
               Callbacks(s, t.cbs).(log := Callbacks(s, t.cbs).log + [Destroyed(s.context.value)])
             else s;
    s.(context := None, handle := false, watchDog := 0, state := InitSession)
  }

  /** A connection attempt can only succeed on a context that exists. */
  predicate Enabled(s: Session, e: Event) {
    e.Task? && s.state == SetUpSession && e.t.ok ==> s.context.Some?
  }

  function Apply(s: Session, e: Event): Session {
    match e
    case Task(t) =>
      (match s.state
       case InitSession => OnInit(s, t)
       case SetUpSession => OnSetUp(s, t)
       case HandleSession => OnHandle(s, t)
       case ExitSession => OnExit(s, t))
    case Send(length) => OnSend(s, length)
  }

  function Exec(es: seq<Event>): Option<Session> {
    if es == [] then Some(INIT) else
      match Exec(es[..|es| - 1])
      case None => None
      case Some(s) => if Enabled(s, es[|es| - 1]) then Some(Apply(s, es[|es| - 1])) else None
  }

  /** n contexts made and destroyed one after the other. */
  function Lives(n: nat): seq<Life> {
    if n == 0 then [] else Lives(n - 1) + [Created(n - 1), Destroyed(n - 1)]
  }

  ghost predicate Inv(s: Session) {
    && (s.state == InitSession ==> s.context.None?)
    && (s.state == SetUpSession ==> !s.handle)
    && (s.state == HandleSession ==> s.handle)
    && (s.handle ==> s.context.Some?)
    && s.watchDog <= 6
    && (match s.context
        case None => s.log == Lives(s.created)
        case Some(id) => s.created == id + 1 && s.log == Lives(id) + [Created(id)])
  }

  /** A callback changes only the state, the watchdog (to 0) and the mail. */
  lemma {:induction false} CallbacksFrame(s: Session, cbs: seq<Callback>)
    ensures var r := Callbacks(s, cbs);
      && r == s.(state := r.state, watchDog := r.watchDog, mail := r.mail)
      && (r.watchDog == s.watchDog || r.watchDog == 0)
      && (r.state == s.state || r.state == HandleSession || r.state == ExitSession)
  {
    if cbs != [] {
      CallbacksFrame(s, cbs[..|cbs| - 1]);
    }
  }

  lemma InitKeeps(s: Session, t: Turn)
    requires Inv(s) && s.state == InitSession
    ensures Inv(OnInit(s, t))
  {
    hide Callbacks, Lives;
    CallbacksFrame(s, t.cbs);
  }

  lemma HandleKeeps(s: Session, t: Turn)
    requires Inv(s) && s.state == HandleSession
    ensures Inv(OnHandle(s, t))
  {
    hide Callbacks, Lives;
    CallbacksFrame(Tick(s, t), t.cbs);
  }

  lemma ExitKeeps(s: Session, t: Turn)
    requires Inv(s) && s.state == ExitSession
    ensures Inv(OnExit(s, t))
  {
    CallbacksFrame(s, t.cbs);
    hide Callbacks;
    if s.context.Some? {
      var id := s.context.value;
      assert Lives(id) + [Created(id)] + [Destroyed(id)] == Lives(id + 1);
    }
  }

  lemma StepKeeps(s: Session, e: Event)
    requires Inv(s) && Enabled(s, e)
    ensures Inv(Apply(s, e))
  {
    hide Callbacks, Lives, OnInit, OnHandle, OnExit;
    if e.Task? {
      match s.state {
        case InitSession => InitKeeps(s, e.t);
        case SetUpSession => CallbacksFrame(s, e.t.cbs);
        case HandleSession => HandleKeeps(s, e.t);
        case ExitSession => ExitKeeps(s, e.t);
      }
    }
  }

  /** In every run: the log alternates creation and destruction of the same context, so at most one is
      live and each is destroyed exactly once before the next is made; a session being handled has a
      connection on a live context; and the watchdog stays within 0..6. */
  lemma {:induction false} EveryRun(es: seq<Event>)
    requires Exec(es).Some?
    ensures Inv(Exec(es).value)
  {
    if es != [] {
      EveryRun(es[..|es| - 1]);
      StepKeeps(Exec(es[..|es| - 1]).value, es[|es| - 1]);
    }
  }

  /** The "illegal context" branch is never taken. */
  lemma IllegalContextUnreachable(es: seq<Event>)
    requires Exec(es).Some? && Exec(es).value.state == InitSession
    ensures Exec(es).value.context.None?
  {
    EveryRun(es);
  }

  // ---- the watchdog

  /** Nothing happens on the connection during the library call. */
  predicate QuietCall(cbs: seq<Callback>) {
    forall i | 0 <= i < |cbs| :: cbs[i] in {Receive, OtherReason} || cbs[i].SendMeanwhile?
  }

  lemma {:induction false} QuietCallbacks(s: Session, cbs: seq<Callback>)
    requires QuietCall(cbs)
    ensures Callbacks(s, cbs) == s.(mail := Callbacks(s, cbs).mail)
  {
    if cbs != [] {
      QuietCallbacks(s, cbs[..|cbs| - 1]);
    }
  }

  function After(s: Session, es: seq<Event>): Session {
    if es == [] then s else Apply(After(s, es[..|es| - 1]), es[|es| - 1])
  }

  /** A send, or a turn, with or without an elapsed tick, in which the connection is not heard of. */
  predicate Quiet(s: Session, e: Event) {
    e.Task? ==> QuietCall(e.t.cbs) && (TickElapsed(s, e.t.now) ==> e.t.net != 0)
  }

  predicate AllQuiet(s: Session, es: seq<Event>) {
    es == [] || (AllQuiet(s, es[..|es| - 1]) && Quiet(After(s, es[..|es| - 1]), es[|es| - 1]))
  }

  predicate IsTick(s: Session, e: Event) { e.Task? && TickElapsed(s, e.t.now) }

  /** How many of the turns saw an elapsed tick. */
  function Ticks(s: Session, es: seq<Event>): nat {
    if es == [] then 0 else
      Ticks(s, es[..|es| - 1]) + if IsTick(After(s, es[..|es| - 1]), es[|es| - 1]) then 1 else 0
  }

  /** Over any events, a handled session survives exactly 6 - watchDog unanswered ticks, however many
      turns and sends lie between them; the next unanswered tick ends it. */
  lemma {:induction false} UnansweredTicks(s: Session, es: seq<Event>, next: Event)
    requires s.state == HandleSession && s.watchDog <= 6 && AllQuiet(s, es) && Ticks(s, es) <= 6 - s.watchDog
    ensures var r := After(s, es);
      && r.state == HandleSession && r.watchDog == s.watchDog + Ticks(s, es)
      && (r.watchDog == 6 && Quiet(r, next) && IsTick(r, next) ==> Apply(r, next).state == ExitSession)
  {
    hide Callbacks;
    if es != [] {
      var front, e := es[..|es| - 1], es[|es| - 1];
      UnansweredTicks(s, front, e);
      if e.Task? {
        QuietCallbacks(Tick(After(s, front), e.t), e.t.cbs);
      }
    }
    if next.Task? && QuietCall(next.t.cbs) {
      QuietCallbacks(Tick(After(s, es), next.t), next.t.cbs);
    }
  }

  /** The connection was heard of during the library call. */
  predicate Heard(cbs: seq<Callback>) { exists i :: 0 <= i < |cbs| && cbs[i].Writeable? }

  lemma {:induction false} HeardResets(s: Session, cbs: seq<Callback>)
    ensures Callbacks(s, cbs).watchDog == if Heard(cbs) then 0 else s.watchDog
  {
    if cbs != [] {
      var front, last := cbs[..|cbs| - 1], cbs[|cbs| - 1];
      HeardResets(s, front);
      if Heard(front) {
        var i :| 0 <= i < |front| && front[i].Writeable?;
        assert cbs[i].Writeable?;
      }
      assert last.Writeable? ==> Heard(cbs);
      if Heard(cbs) && !last.Writeable? {
        var i :| 0 <= i < |cbs| && cbs[i].Writeable?;
        assert front[i].Writeable?;
      }
    }
  }

  /** Whether a turn makes its library call. */
  predicate CallsLibrary(s: Session, t: Turn) {
    s.state == SetUpSession || s.state == HandleSession || (s.state == InitSession && t.net == 1 && s.context.None?)
  }

  /** How many ticks of the sessions handled in this run have elapsed, with the network up, since the last
      Writeable callback or the last exit; the seventh in a row is the last. */
  function Unheard(es: seq<Event>): nat {
    if es == [] then 0 else
      var front, e := es[..|es| - 1], es[|es| - 1];
      match Exec(front)
      case None => 0
      case Some(s) =>
        if e.Send? then Unheard(front)
        else if s.state == ExitSession || (CallsLibrary(s, e.t) && Heard(e.t.cbs)) then 0
        else if s.state == HandleSession && IsTick(s, e) && e.t.net != 0 && Unheard(front) < 6 then Unheard(front) + 1
        else Unheard(front)
  }

  /** In every run the watchdog counts exactly that. */
  lemma {:induction false} WatchdogCounts(es: seq<Event>)
    requires Exec(es).Some?
    ensures Exec(es).value.watchDog == Unheard(es)
  {
    if es != [] {
      var front, e := es[..|es| - 1], es[|es| - 1];
      WatchdogCounts(front);
      var s := Exec(front).value;
      hide Callbacks, Heard;
      if e.Task? {
        HeardResets(s, e.t.cbs);
        HeardResets(Tick(s, e.t), e.t.cbs);
      }
    }
  }

  /** Every elapsed tick of a handled session is answered in its turn. */
  predicate AllAnswered(es: seq<Event>) {
    es == [] ||
      var front, e := es[..|es| - 1], es[|es| - 1];
      AllAnswered(front)
      && (Exec(front).Some? && Exec(front).value.state == HandleSession && IsTick(Exec(front).value, e) && e.t.net != 0
          ==> Heard(e.t.cbs))
  }

  lemma {:induction false} AnsweredCountsNothing(es: seq<Event>)
    requires Exec(es).Some? && AllAnswered(es)
    ensures Unheard(es) == 0
  {
    if es != [] {
      hide Heard, Apply;
      AnsweredCountsNothing(es[..|es| - 1]);
    }
  }

  /** If every elapsed tick is answered, the watchdog is 0 throughout, and with the network up it never ends the
      session: only a callback does. */
  lemma AnsweredTicks(es: seq<Event>, t: Turn)
    requires Exec(es).Some? && AllAnswered(es) && Exec(es).value.state == HandleSession && t.net != 0
    ensures Exec(es).value.watchDog == 0
    ensures var s := Exec(es).value;
      OnHandle(s, t).state == ExitSession <==> Decision(s.handle, s.mail.pending, t.cbs) == Some(ExitSession)
  {
    WatchdogCounts(es);
    AnsweredCountsNothing(es);
    var s := Exec(es).value;
    hide Exec, Callbacks, Decision;
    CallbacksDecide(Tick(s, t), t.cbs);
  }

  /** A tick that finds the network down ends the session, unless the callbacks finish by establishing. */
  lemma NetworkOutcome(s: Session, t: Turn)
    requires s.state == HandleSession && TickElapsed(s, t.now) && t.net == 0
    ensures OnHandle(s, t).state == ExitSession <==> Decision(s.handle, s.mail.pending, t.cbs) != Some(HandleSession)
  {
    CallbacksDecide(Tick(s, t), t.cbs);
    DecisionRange(s.handle, s.mail.pending, t.cbs);
  }

  /** What one callback writes to now_state, if anything. */
  function Sets(pending: bool, cb: Callback): Option<Phase> {
    match cb
    case Established => Some(HandleSession)
    case ConnectionError => Some(ExitSession)
    case Closed => Some(ExitSession)
    case Writeable(n) => if pending && n <= 0 then Some(ExitSession) else None
    case _ => None
  }

  function PendingAfter(handle: bool, pending: bool, cb: Callback): bool {
    match cb
    case Writeable(_) => false
    case SendMeanwhile(length) => pending || (handle && length < SEND_MSG_MIN)
    case _ => pending
  }

  /** What a library call leaves in now_state: the last callback that sets it decides. */
  function Decision(handle: bool, pending: bool, cbs: seq<Callback>): Option<Phase>
    decreases cbs
  {
    if cbs == [] then None else
      var later := Decision(handle, PendingAfter(handle, pending, cbs[0]), cbs[1..]);
      if later.Some? then later else Sets(pending, cbs[0])
  }

  lemma {:induction false} CallbacksCons(s: Session, cbs: seq<Callback>)
    requires cbs != []
    ensures Callbacks(s, cbs) == Callbacks(OnCallback(s, cbs[0]), cbs[1..])
  {
    if |cbs| > 1 {
      var front := cbs[..|cbs| - 1];
      CallbacksCons(s, front);
      assert front[1..] == cbs[1..][..|cbs| - 2];
    } else {
      assert cbs[..0] == [] && cbs[1..] == [];
    }
  }

  lemma {:induction false} CallbacksDecide(s: Session, cbs: seq<Callback>)
    ensures Callbacks(s, cbs).state
         == match Decision(s.handle, s.mail.pending, cbs) case None => s.state case Some(p) => p
    decreases |cbs|
  {
    if cbs != [] {
      CallbacksCons(s, cbs);
      CallbacksDecide(OnCallback(s, cbs[0]), cbs[1..]);
    }
  }

  /** When the watchdog runs out, the session ends if and only if the callbacks of the library call that
      follows do not finish by establishing a connection. */
  lemma WatchdogOutcome(s: Session, t: Turn)
    requires s.state == HandleSession && s.watchDog > 5 && TickElapsed(s, t.now) && t.net != 0
    ensures OnHandle(s, t).state == ExitSession <==> Decision(s.handle, s.mail.pending, t.cbs) != Some(HandleSession)
  {
    CallbacksDecide(Tick(s, t), t.cbs);
    DecisionRange(s.handle, s.mail.pending, t.cbs);
  }

  lemma {:induction false} DecisionRange(handle: bool, pending: bool, cbs: seq<Callback>)
    ensures Decision(handle, pending, cbs) in {None, Some(ExitSession), Some(HandleSession)}
    decreases cbs
  {
    if cbs != [] {
      DecisionRange(handle, PendingAfter(handle, pending, cbs[0]), cbs[1..]);
    }
  }

  ghost predicate Reaches(s: Session) { exists es :: Exec(es) == Some(s) }

  lemma Extend(s: Session, e: Event)
    requires Reaches(s) && Enabled(s, e)
    ensures Reaches(Apply(s, e))
  {
    var es :| Exec(es) == Some(s);
    assert (es + [e])[..|es|] == es;
    assert Exec(es + [e]) == Some(Apply(s, e));
  }

  /** A session that has been handled through k unanswered ticks. */
  function Unanswered(k: nat): Session {
    Session(HandleSession, Some(0), true, k, k * (HZ + 1), NO_MAIL, 1, [Created(0)])
  }

  lemma {:induction false} ReachUnanswered(k: nat)
    requires k <= 6
    ensures Reaches(Unanswered(k))
  {
    var net := Turn(1, true, 0, []);
    if k == 0 {
      assert Exec([]) == Some(INIT);
      hide Reaches;
      Extend(INIT, Task(net));
      var setUp := Session(SetUpSession, Some(0), false, 0, 0, NO_MAIL, 1, [Created(0)]);
      assert [] + [Created(0)] == [Created(0)];
      Extend(setUp, Task(net));
    } else {
      hide Reaches;
      ReachUnanswered(k - 1);
      Extend(Unanswered(k - 1), Task(Turn(1, true, k * (HZ + 1), [])));
    }
  }

  /** So an expired watchdog alone does not guarantee the end of the session: after six unanswered ticks
      of a real run, the seventh comes with an established connection and the session goes on. */
  lemma WatchdogOverruled()
    ensures var s := Unanswered(6);
            var t := Turn(1, true, 7 * (HZ + 1), [Established]);
      && Reaches(s) && s.watchDog > 5 && TickElapsed(s, t.now) && t.net != 0
      && Apply(s, Task(t)).state == HandleSession
  {
    var s, t := Unanswered(6), Turn(1, true, 7 * (HZ + 1), [Established]);
    ReachUnanswered(6);
    CallbacksDecide(Tick(s, t), t.cbs);
    assert Decision(true, false, [Established]) == Some(HandleSession);
  }

  // ---- the length given to lws_write

  function Last(xs: seq<nat>): nat { if xs == [] then 0 else xs[|xs| - 1] }

  predicate AnyShort(sends: seq<nat>) { exists i :: 0 <= i < |sends| && sends[i] < SEND_MSG_MIN }

  /** The length of the message in send_buffer: the last one that was not too long. */
  function Message(sends: seq<nat>): (n: nat)
    requires AnyShort(sends)
    ensures n < SEND_MSG_MIN && n in sends
  {
    if Last(sends) < SEND_MSG_MIN then Last(sends)
    else
      assert AnyShort(sends[..|sends| - 1]) by {
        var i :| 0 <= i < |sends| && sends[i] < SEND_MSG_MIN;
        assert sends[..|sends| - 1][i] == sends[i];
      }
      Message(sends[..|sends| - 1])
  }

  ghost predicate MailInv(m: Mail) {
    && m.dataLen == Last(m.sends)
    && (m.pending ==> AnyShort(m.sends))
    && (forall w <- m.writes ::
          w.after <= |m.sends| && w.given == Last(m.sends[..w.after]) && AnyShort(m.sends[..w.after]))
  }

  lemma PostedKeeps(m: Mail, length: nat)
    requires MailInv(m)
    ensures MailInv(Posted(m, length))
  {
    var r := Posted(m, length);
    assert r.sends[..|m.sends|] == m.sends;
    if AnyShort(m.sends) {
      var i :| 0 <= i < |m.sends| && m.sends[i] < SEND_MSG_MIN;
      assert r.sends[i] == m.sends[i];
    }
    if length < SEND_MSG_MIN {
      assert r.sends[|m.sends|] == length;
    }
    hide AnyShort, Last;
    forall w <- r.writes ensures r.sends[..w.after] == m.sends[..w.after] {
    }
  }

  lemma WrittenKeeps(m: Mail)
    requires MailInv(m) && m.pending
    ensures MailInv(Written(m))
  {
    hide AnyShort, Last;
    assert m.sends[..|m.sends|] == m.sends;
  }

  lemma {:induction false} CallbacksMail(s: Session, cbs: seq<Callback>)
    requires MailInv(s.mail)
    ensures MailInv(Callbacks(s, cbs).mail)
  {
    if cbs != [] {
      CallbacksMail(s, cbs[..|cbs| - 1]);
      var t := Callbacks(s, cbs[..|cbs| - 1]);
      hide MailInv, Posted, Written;
      match cbs[|cbs| - 1] {
        case Writeable(_) => if t.mail.pending { WrittenKeeps(t.mail); }
        case SendMeanwhile(length) => PostedKeeps(t.mail, length);
        case _ =>
      }
    }
  }

  lemma {:induction false} EveryMail(es: seq<Event>)
    requires Exec(es).Some?
    ensures MailInv(Exec(es).value.mail)
  {
    if es != [] {
      var front, e := es[..|es| - 1], es[|es| - 1];
      EveryMail(front);
      var s := Exec(front).value;
      hide MailInv, Posted, Callbacks;
      match e {
        case Task(t) =>
          CallbacksMail(s, t.cbs);
          CallbacksMail(Tick(s, t), t.cbs);
        case Send(length) => PostedKeeps(s.mail, length);
      }
    }
  }

  /** The bytes of send_buffer from where the message starts. */
  const ROOM: nat := SEND_MSG_MIN + 4

  /** In every run, every lws_write is given the length of the message in the buffer if and only if the last
      send before it was not too long; it reads past the end of the buffer if and only if that send was
      longer than the buffer. */
  lemma WriteLengths(es: seq<Event>, w: Write)
    requires Exec(es).Some? && w in Exec(es).value.mail.writes
    ensures var sends := Exec(es).value.mail.sends;
      && 1 <= w.after <= |sends| && AnyShort(sends[..w.after])
      && (w.given == Message(sends[..w.after]) <==> sends[w.after - 1] < SEND_MSG_MIN)
      && (w.given > ROOM <==> sends[w.after - 1] > ROOM)
  {
    EveryMail(es);
  }

  /** After set-up: a message of 10 bytes, one of 1000 that is refused, and the write that follows. */
  lemma OversizeWritten()
    ensures var s := Unanswered(0).(mail := Mail(false, 1000, [10, 1000], [Write(1000, 2)]));
      Reaches(s) && AnyShort([10, 1000]) && Message([10, 1000]) == 10
  {
    hide Reaches;
    ReachUnanswered(0);
    var s := Unanswered(0);
    Extend(s, Send(10));
    var s1 := s.(mail := Mail(true, 10, [10], []));
    assert [] + [10] == [10];
    Extend(s1, Send(1000));
    var s2 := s.(mail := Mail(true, 1000, [10, 1000], []));
    assert [10] + [1000] == [10, 1000];
    Extend(s2, Task(Turn(1, true, 0, [Writeable(1)])));
    assert [Writeable(1)][..0] == [] && [] + [Write(1000, 2)] == [Write(1000, 2)];
    assert [10, 1000][0] == 10 && [10, 1000][..1] == [10];
  }

  // ---- the source's own form

  /** The demo's globals and lwsRecvTask's locals. */
  class Client {
    var nowState: Phase
    var lwsContext: Option<nat>
    var wsContext: bool
    var watchDog: nat
    var oldTick: nat
    var data2Send: bool
    var dataLength: nat
    ghost var sends: seq<nat>
    ghost var writes: seq<Write>
    ghost var created: nat
    ghost var log: seq<Life>
    var nextId: nat

    ghost function View(): Session
      reads this
    {
      Session(nowState, lwsContext, wsContext, watchDog, oldTick, Mail(data2Send, dataLength, sends, writes), created, log)
    }

    ghost predicate Valid()
      reads this
    {
      nextId == created && Inv(View())
    }

    constructor ()
      ensures Valid() && View() == INIT
    {
      nowState, lwsContext, wsContext, watchDog, oldTick, data2Send := InitSession, None, false, 0, 0, false;
      nextId, created, log, dataLength, sends, writes := 0, 0, [], 0, [], [];
    }

    method LwsCallbackNotify(reason: Callback)
      modifies this`nowState, this`watchDog, this`data2Send, this`dataLength, this`sends, this`writes
      ensures View() == OnCallback(old(View()), reason)
      ensures reason == Established ==> nowState == HandleSession
      ensures reason in {ConnectionError, Closed} ==> nowState == ExitSession
      ensures reason.Writeable? ==> watchDog == 0 && !data2Send
      ensures reason.Writeable? && old(data2Send) ==> writes == old(writes) + [Write(dataLength, |sends|)]
      ensures reason.Writeable? ==> nowState == if old(data2Send) && reason.written <= 0 then ExitSession else old(nowState)
      ensures !reason.Writeable? ==> watchDog == old(watchDog) && writes == old(writes)
    {
      match reason {
        case Established => nowState := HandleSession;
        case ConnectionError => nowState := ExitSession;
        case Closed => nowState := ExitSession;
        case Receive =>
        case Writeable(n) =>
          watchDog := 0;
          if data2Send {
            writes := writes + [Write(dataLength, |sends|)];
            if n <= 0 {
              nowState := ExitSession;
            }
            data2Send := false;
          }
        case OtherReason =>
        case SendMeanwhile(length) => DemoLwsSend(length);
      }
    }

    /** A library call that runs these callbacks. */
    method LibraryCall(cbs: seq<Callback>)
      modifies this`nowState, this`watchDog, this`data2Send, this`dataLength, this`sends, this`writes
      ensures View() == Callbacks(old(View()), cbs)
    {
      for i := 0 to |cbs|
        invariant View() == Callbacks(old(View()), cbs[..i])
      {
        assert cbs[..i + 1][..i] == cbs[..i];
        LwsCallbackNotify(cbs[i]);
      }
      assert cbs[..|cbs|] == cbs;
    }

    method DemoLwsSend(length: nat)
      modifies this`data2Send, this`dataLength, this`sends
      ensures View() == Apply(old(View()), Send(length))
      ensures data2Send == (old(data2Send) || (wsContext && length < SEND_MSG_MIN))
      ensures dataLength == if wsContext then length else old(dataLength)
    {
      if !wsContext {
        return;
      }
      sends := sends + [length];
      dataLength := length;
      if length < SEND_MSG_MIN {
        data2Send := true;
      }
    }

    /** Lines 214-224: the once-a-second check. */
    method Watch(t: Turn)
      modifies this`nowState, this`watchDog, this`oldTick
      ensures View() == Tick(old(View()), t)
      ensures (t.now - old(oldTick)) % 0x1_0000_0000 <= HZ ==>
        nowState == old(nowState) && watchDog == old(watchDog) && oldTick == old(oldTick)
      ensures (t.now - old(oldTick)) % 0x1_0000_0000 > HZ && t.net == 0 ==> nowState == ExitSession
      ensures (t.now - old(oldTick)) % 0x1_0000_0000 > HZ && t.net != 0 ==>
        && oldTick == t.now
        && (if old(watchDog) <= 5 then watchDog == old(watchDog) + 1 && nowState == old(nowState) else nowState == ExitSession)
    {
      if (t.now - oldTick) % 0x1_0000_0000 > HZ {
        if t.net != 0 {
          if watchDog > 5 {
            nowState := ExitSession;
          } else {
            watchDog := watchDog + 1;
          }
          oldTick := t.now;
        } else {
          nowState := ExitSession;
        }
      }
    }

    method InitTurn(t: Turn)
      requires nextId == created && lwsContext.None?
      modifies this
      ensures nextId == created && View() == OnInit(old(View()), t)
      ensures nowState == (if t.net == 1 then SetUpSession else old(nowState)) && lwsContext.Some? == (t.net == 1 && t.ok)
    {
      hide Callbacks;
      CallbacksFrame(View(), t.cbs);
      if t.net == 1 {
        LibraryCall(t.cbs);
        if t.ok {
          lwsContext := Some(nextId);
          nextId := nextId + 1;
          log := log + [Created(created)];
          created := created + 1;
        }
        nowState := SetUpSession;
      }
    }

    method ExitTurn(t: Turn)
      requires nextId == created
      modifies this
      ensures nextId == created && View() == OnExit(old(View()), t)
    {
      hide Callbacks;
      CallbacksFrame(View(), t.cbs);
      if lwsContext.Some? {
        LibraryCall(t.cbs);
        log := log + [Destroyed(lwsContext.value)];
      }
      lwsContext := None;
      wsContext := false;
      watchDog := 0;
      nowState := InitSession;
    }

    /** One turn of lwsRecvTask's loop. INIT_SESSION never finds a context, so its branch for that case is
        not there. */
    method RecvTurn(t: Turn)
      requires Valid() && Enabled(View(), Task(t))
      modifies this
      ensures Valid() && View() == Apply(old(View()), Task(t))
      ensures old(nowState) == InitSession ==>
        nowState == (if t.net == 1 then SetUpSession else InitSession) && lwsContext.Some? == (t.net == 1 && t.ok)
      ensures old(nowState) == SetUpSession ==> wsContext == t.ok && nowState == if t.ok then HandleSession else ExitSession
      ensures old(nowState) == ExitSession ==>
        nowState == InitSession && lwsContext.None? && !wsContext && watchDog == 0
    {
      StepKeeps(View(), Task(t));
      assert nowState == InitSession ==> lwsContext.None?;
      hide Inv, Callbacks, Tick, OnInit, OnExit;
      match nowState {
        case InitSession => InitTurn(t);
        case SetUpSession =>
          LibraryCall(t.cbs);
          wsContext := t.ok;
          nowState := if wsContext then HandleSession else ExitSession;
        case HandleSession =>
          Watch(t);
          LibraryCall(t.cbs);
        case ExitSession => ExitTurn(t);
      }
    }
  }
}
