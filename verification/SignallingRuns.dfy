/** The theorems about whole runs of the signalling client. */
module SignallingRuns {
  import opened Options
  import opened Text
  import opened Decimal
  import opened Protocol
  import opened Roster
  import opened Response
  import opened Signalling
  import opened SignallingInvariants

  /* ---------- one session ---------- */

  /** `longer` continues `run`. */
  ghost predicate Continues(longer: Run, run: Run)
  {
    longer == run || (longer.After? && Continues(longer.past, run))
  }

  /** A session is opened, and local info started, at most once: exactly when there is a control socket. */
  lemma OneSession(g: Garbage, run: Run)
    requires Reach(g, run).Some?
    ensures var s := Reach(g, run).value;
            && Sessions(s.trace) == LocalInfos(s.trace) <= 1
            && (Sessions(s.trace) == 1 <==> s.control != Null)
            && (s.control != Null ==> s.host != "" && s.username != "" && 1 <= s.port <= USHORT_MAX)
            && (s.data != Null ==> s.control != Null)
  {
    Invariants(g, run);
  }

  /**
   Every connection ever attempted, on either socket, goes to the host and port of the login, and
   the one sign-in names its user; there is never more than one live data connection.
   */
  lemma OneAddress(g: Garbage, run: Run)
    requires Reach(g, run).Some?
    ensures var s := Reach(g, run).value;
            && AddressedTo(s.trace, s.host, s.port, s.username)
            && SignIns(s.trace) == ControlOpens(s.trace) <= 1
            && (s.isLoggedIn <==> SignIns(s.trace) == 1)
            && LiveData(s.trace) == (if s.data == Connected then 1 else 0)
  {
    Invariants(g, run);
  }

  /** Either socket is connected exactly while the trace has one live connection for it, never two. */
  lemma SocketsFollowTrace(g: Garbage, run: Run)
    requires Reach(g, run).Some?
    ensures var s := Reach(g, run).value;
            && 0 <= LiveControl(s.trace) <= 1 && (s.control == Connected <==> LiveControl(s.trace) == 1)
            && 0 <= LiveData(s.trace) <= 1 && (s.data == Connected <==> LiveData(s.trace) == 1)
  {
    Invariants(g, run);
  }

  /** From then on host, port and user name never change, whatever is clicked or received. */
  lemma {:induction false} LoginFrozen(g: Garbage, run: Run, longer: Run)
    requires Continues(longer, run) && Reach(g, longer).Some?
    ensures Reach(g, run).Some?
    ensures var s, s' := Reach(g, run).value, Reach(g, longer).value;
            s.control != Null ==>
              s'.control != Null && s'.host == s.host && s'.port == s.port && s'.username == s.username
    decreases longer
  {
    if longer != run {
      LoginFrozen(g, run, longer.past);
      StepFrame(Reach(g, longer.past).value, longer.event);
    }
  }

  /** The user is never listed and never indexed. */
  lemma NoSelf(g: Garbage, run: Run)
    requires Reach(g, run).Some?
    ensures var s := Reach(g, run).value; s.username !in s.shown && s.username !in s.peers
  {
    Invariants(g, run);
  }

  /* ---------- polling ---------- */

  lemma {:induction false} WaitAccount(t: Trace)
    ensures Waits(t) == Answered(t) + LostWaits(t) + DroppedWaits(t) + Unanswered(t)
    decreases t
  {
    if t.Then? { WaitAccount(t.before); }
  }

  /**
   One `/wait` per data connection; each one is answered, lost with its connection, or the single
   one still open; the client never closes on an open one, and before the first call an open one
   exists exactly while the data socket is connected.
   */
  lemma {:induction false} PollingConservation(g: Garbage, run: Run)
    requires Reach(g, run).Some?
    ensures var s := Reach(g, run).value;
            && Waits(s.trace) == DataOpens(s.trace)
            && Waits(s.trace) == Answered(s.trace) + LostWaits(s.trace) + Unanswered(s.trace)
            && Unanswered(s.trace) <= 1
            && (Unanswered(s.trace) == 1 ==> s.data == Connected)
            && (!s.isCalling ==> (Unanswered(s.trace) == 1 <==> s.data == Connected))
  {
    Invariants(g, run);
    WaitAccount(Reach(g, run).value.trace);
  }

  ghost predicate AttemptInv(s: State)
  {
    DataAttempts(s.trace) == DataOccasions(s.trace) && ControlAttempts(s.trace) == Sessions(s.trace)
  }

  lemma OpenDataAttempts(s: State, c: bool)
    ensures var t, t' := s.trace, OpenData(s, c).trace;
            && DataAttempts(t') == DataAttempts(t) + 1 && DataOccasions(t') == DataOccasions(t)
            && ControlAttempts(t') == ControlAttempts(t) && Sessions(t') == Sessions(t)
  {
    var t1 := Then(s.trace, ConnectData(s.host, s.port, c));
    assert DataAttempts(t1) == DataAttempts(s.trace) + 1 && DataOccasions(t1) == DataOccasions(s.trace);
    assert ControlAttempts(t1) == ControlAttempts(s.trace) && Sessions(t1) == Sessions(s.trace);
  }

  lemma ControlAttemptsStep(s: State, r: Response, c: bool)
    requires AttemptInv(s) && LinkInv(s) && OnControlRead(s, r, c).Some?
    ensures AttemptInv(OnControlRead(s, r, c).value)
  {
    ReplySteps(s, r, c);
    OpenDataAttempts(AfterControlReply(s, r), c);
  }

  lemma DataAttemptsStep(s: State, r: Response, c: bool)
    requires AttemptInv(s) && OnDataRead(s, r, c).Some?
    ensures AttemptInv(OnDataRead(s, r, c).value)
  {
    ReplySteps(s, r, c);
    if !(r.push && s.isCalling) {
      var t1 := Then(s.trace, RecvData(r));
      assert DataAttempts(t1) == DataAttempts(s.trace) && DataOccasions(t1) == DataOccasions(s.trace);
      assert ControlAttempts(t1) == ControlAttempts(s.trace) && Sessions(t1) == Sessions(s.trace);
      OpenDataAttempts(AfterDataReply(s, r), c);
    }
  }

  lemma LoginAttempts(s: State, h: string, p: UShort, u: string, c: bool)
    requires AttemptInv(s)
    ensures AttemptInv(OnLogin(s, h, p, u, c))
  {
    if s.control == Null && h != "" && u != "" && p != 0 {
      var t1 := Then(s.trace, SessionStarted);
      var t2 := Then(t1, ConnectControl(h, p, c));
      var t3 := if c && !s.isSigningOut then Then(t2, SignIn(u)) else t2;
      assert OnLogin(s, h, p, u, c).trace == Then(t3, LocalInfoStarted);
      assert DataAttempts(t1) == DataAttempts(s.trace) && DataOccasions(t1) == DataOccasions(s.trace);
      assert ControlAttempts(t1) == ControlAttempts(s.trace) && Sessions(t1) == Sessions(s.trace) + 1;
      assert DataAttempts(t2) == DataOccasions(t2) && ControlAttempts(t2) == Sessions(t2);
      assert DataAttempts(t3) == DataOccasions(t3) && ControlAttempts(t3) == Sessions(t3);
    }
  }

  /**
   Every reason to connect leads to exactly one attempt: one on the control socket for the session,
   one on the data socket each time it was closed or is down when a control response comes.
   */
  lemma {:induction false} AttemptsConserved(g: Garbage, run: Run)
    requires Reach(g, run).Some?
    ensures var t := Reach(g, run).value.trace;
            DataAttempts(t) == DataOccasions(t) && ControlAttempts(t) == Sessions(t)
    decreases run
  {
    if run.After? {
      AttemptsConserved(g, run.past);
      Invariants(g, run.past);
      var s := Reach(g, run.past).value;
      match run.event
      case Login(h, p, u, c) => LoginAttempts(s, h, p, u, c);
      case ControlRead(r, c) => ControlAttemptsStep(s, r, c);
      case DataRead(r, c) => DataAttemptsStep(s, r, c);
      case _ =>
    }
  }

  /** A control response starts polling where the data socket is down, and leaves it alone where it is up. */
  lemma PollingStarts(g: Garbage, run: Run, r: Response)
    requires Reach(g, After(run, ControlRead(r, true))).Some?
    ensures var s, s' := Reach(g, run).value, Reach(g, After(run, ControlRead(r, true))).value;
            && s'.data == Connected && s'.control == Connected
            && Unanswered(s'.trace) == if s.data == Connected then Unanswered(s.trace) else 1
  {
    Invariants(g, run);
    Invariants(g, After(run, ControlRead(r, true)));
    var s := Reach(g, run).value;
    ReplySteps(s, r, true);
    OpenDataFrame(AfterControlReply(s, r), true);
    OpenDataEffect(AfterControlReply(s, r), true);
  }

  /** A handled data response leaves one `/wait` open unless it is a push taken during a call. */
  lemma PollingResumes(g: Garbage, run: Run, r: Response)
    requires Reach(g, After(run, DataRead(r, true))).Some?
    ensures var s, s' := Reach(g, run).value, Reach(g, After(run, DataRead(r, true))).value;
            Unanswered(s'.trace) == if s.isCalling && r.push then 0 else 1
  {
    Invariants(g, run);
    Invariants(g, After(run, DataRead(r, true)));
    ReplySteps(Reach(g, run).value, r, true);
  }

  /** Polling stands still on a live connection exactly when the latest exchange on it was a response. */
  lemma PollingStalls(g: Garbage, run: Run)
    requires Reach(g, run).Some? && Reach(g, run).value.data == Connected
    ensures var s := Reach(g, run).value;
            var latest := LatestExchange(s.trace);
            && latest.Some?
            && (Unanswered(s.trace) == 0 <==> latest.value.RecvData?)
            && (latest.value.RecvData? ==> s.isCalling && latest.value.reply.Full? && latest.value.reply.push)
  {
    Invariants(g, run);
  }

  /** It does happen, whoever logs in where and calls whom: sign in, call, receive a push. */
  lemma StallingRun(g: Garbage, h: string, p: UShort, u: string, r: Response, row: nat, push: Response, c: bool)
    requires h != "" && u != "" && p != 0
    requires r.Full? && r.roster.Some? && row < |Names(Accepted(u, r.roster.value))| && push.Full? && push.push
    ensures var run := After(After(After(After(Fresh, Login(h, p, u, true)), ControlRead(r, true)),
                                   DoubleClick(row)), DataRead(push, c));
            && Reach(g, run).Some?
            && Reach(g, run).value.data == Connected && Unanswered(Reach(g, run).value.trace) == 0
  {
    var signedIn := After(Fresh, Login(h, p, u, true));
    SignedIn(g, h, p, u);
    StartsPolling(g, signedIn, r);
    StalledByPush(g, After(After(signedIn, ControlRead(r, true)), DoubleClick(row)), push, c);
  }

  lemma SignedIn(g: Garbage, h: string, p: UShort, u: string)
    requires h != "" && u != "" && p != 0
    ensures var o := Reach(g, After(Fresh, Login(h, p, u, true)));
            o.Some? && o.value.control == Connected && o.value.username == u && o.value.data == Null
  {
    assert Reach(g, Fresh) == Some(Initial(g));
    LoginFields(Initial(g), h, p, u, true);
  }

  lemma StartsPolling(g: Garbage, run: Run, r: Response)
    requires Reach(g, run).Some? && Reach(g, run).value.control == Connected && Reach(g, run).value.data == Null
    requires r.Full? && r.roster.Some?
    ensures var s, o := Reach(g, run).value, Reach(g, After(run, ControlRead(r, true)));
            o.Some? && o.value.data == Connected && o.value.shown == Names(Accepted(s.username, r.roster.value))
  {
    var s := Reach(g, run).value;
    ReplySteps(s, r, true);
    ControlReadFrame(s, r, true);
    OpenDataFrame(AfterControlReply(s, r), true);
  }

  lemma StalledByPush(g: Garbage, run: Run, push: Response, c: bool)
    requires Reach(g, run).Some? && Reach(g, run).value.isCalling && Reach(g, run).value.data == Connected
    requires push.Full? && push.push
    ensures var o := Reach(g, After(run, DataRead(push, c)));
            o.Some? && o.value.data == Connected && Unanswered(o.value.trace) == 0
  {
    ReplySteps(Reach(g, run).value, push, c);
    Invariants(g, run);
  }

  ghost predicate SameTrace(g: Garbage, run: Run, longer: Run)
    requires Reach(g, run).Some? && Reach(g, longer).Some?
  {
    Reach(g, longer).value.trace == Reach(g, run).value.trace
  }

  lemma {:induction false} QuietForever(g: Garbage, run: Run, longer: Run)
    requires Continues(longer, run) && Reach(g, longer).Some? && Reach(g, run).Some?
    requires Reach(g, run).value.control == Unconnected && Reach(g, run).value.data != Connected
    ensures SameTrace(g, run, longer)
    ensures Reach(g, longer).value.control == Unconnected && Reach(g, longer).value.data != Connected
    decreases longer
  {
    if longer != run {
      QuietForever(g, run, longer.past);
    }
  }

  /** An event that would still be seen from outside. */
  function NextDeed(s: State): Event
  {
    if s.control == Null then Login("h", 1, "u", false)
    else if s.control == Connected then ControlDisconnect
    else DataDisconnect
  }

  lemma StillAlive(g: Garbage, run: Run)
    requires Reach(g, run).Some?
    requires Reach(g, run).value.control != Unconnected || Reach(g, run).value.data == Connected
    ensures var longer := After(run, NextDeed(Reach(g, run).value));
            Continues(longer, run) && Reach(g, longer).Some? && !SameTrace(g, run, longer)
  {
    var s := Reach(g, run).value;
    var longer := After(run, NextDeed(s));
    assert Continues(longer.past, run);
    if s.control == Null {
      LoginGrows(s, "h", 1, "u", false);
    }
  }

  lemma LoginGrows(s: State, h: string, p: UShort, u: string, c: bool)
    requires s.control == Null && h != "" && u != "" && p != 0
    ensures OnLogin(s, h, p, u, c).trace != s.trace
  {
    LoginEffect(s, h, p, u, c);
  }

  /**
   The end of a session is for good: nothing that can still happen adds to the trace exactly when
   the control socket is down and the data socket is not connected.
   */
  lemma {:induction false} SessionOver(g: Garbage, run: Run)
    requires Reach(g, run).Some?
    ensures var s := Reach(g, run).value;
            (forall longer :: Continues(longer, run) && Reach(g, longer).Some? ==> SameTrace(g, run, longer)) <==>
            s.control == Unconnected && s.data != Connected
  {
    var s := Reach(g, run).value;
    if s.control == Unconnected && s.data != Connected {
      forall longer | Continues(longer, run) && Reach(g, longer).Some? ensures SameTrace(g, run, longer) {
        QuietForever(g, run, longer);
      }
    } else {
      StillAlive(g, run);
    }
  }

  predicate HasDoubleClick(run: Run)
  {
    run.After? && (run.event.DoubleClick? || HasDoubleClick(run.past))
  }

  /** The calling flag is set by the first double click and never cleared. */
  lemma {:induction false} CallingSinceDoubleClick(g: Garbage, run: Run)
    requires Reach(g, run).Some?
    ensures Reach(g, run).value.isCalling <==> HasDoubleClick(run)
    decreases run
  {
    if run.After? {
      CallingSinceDoubleClick(g, run.past);
      StepFrame(Reach(g, run.past).value, run.event);
    }
  }

  /* ---------- identity ---------- */

  lemma {:induction false} WaitIn(t: Trace, p: Trace, id: int)
    requires WaitsCarryId(t) && IsPrefix(Then(p, Wait(id)), t)
    ensures LatestId(p) == Some(id)
    decreases t
  {
    if t != Then(p, Wait(id)) { WaitIn(t.before, p, id); }
  }

  /** Every `/wait` ever sent follows a control response and carries the id of the latest one. */
  lemma RequestIdentity(g: Garbage, run: Run, p: Trace, id: int)
    requires Reach(g, run).Some? && IsPrefix(Then(p, Wait(id)), Reach(g, run).value.trace)
    ensures LatestId(p) == Some(id)
  {
    Invariants(g, run);
    WaitIn(Reach(g, run).value.trace, p, id);
  }

  lemma {:induction false} SignInIn(t: Trace, p: Trace, u: string, host: string, port: UShort, user: string)
    requires AddressedTo(t, host, port, user) && IsPrefix(Then(p, SignIn(u)), t)
    ensures u == user
    decreases t
  {
    if t != Then(p, SignIn(u)) { SignInIn(t.before, p, u, host, port, user); }
  }

  /** The sign-in as sent: the server reads the login's user from it, unless the name holds a space. */
  lemma SignInReadsBack(g: Garbage, run: Run, p: Trace, u: string)
    requires Reach(g, run).Some? && IsPrefix(Then(p, SignIn(u)), Reach(g, run).value.trace)
    ensures var s := Reach(g, run).value;
            ReadSignIn(SignInRequest(u)) == if ' ' in s.username then None else Some(s.username)
  {
    Invariants(g, run);
    var s := Reach(g, run).value;
    SignInIn(s.trace, p, u, s.host, s.port, s.username);
    SignInOfRequest(u);
  }

  /** As sent: the server reads back from the request line the id it gave out last. */
  lemma RequestReadsBack(g: Garbage, run: Run, p: Trace, id: int)
    requires Reach(g, run).Some? && IsPrefix(Then(p, Wait(id)), Reach(g, run).value.trace)
    ensures ReadWait(WaitRequest(id)) == LatestId(p) != None
  {
    RequestIdentity(g, run, p, id);
    LatestIdInRange(p);
    ReadWaitOfRequest(id);
  }

  lemma {:induction false} LatestIdInRange(t: Trace)
    ensures LatestId(t).Some? ==> IsInt32(LatestId(t).value)
    decreases t
  {
    if t.Then? { LatestIdInRange(t.before); }
  }

  /** Equal but for uninitialised fields that have not been assigned yet. */
  ghost predicate SameButGarbage(s: State, t: State)
  {
    && t == s.(myId := t.myId, port := t.port)
    && (s.control != Null ==> t.port == s.port)
    && (s.data != Null ==> t.myId == s.myId)
  }

  /** Uninitialised memory is never observed: it changes no request, no list and no index. */
  lemma {:induction false} GarbageUnseen(g: Garbage, h: Garbage, run: Run)
    ensures Reach(g, run).Some? <==> Reach(h, run).Some?
    ensures Reach(g, run).Some? ==> SameButGarbage(Reach(g, run).value, Reach(h, run).value)
    decreases run
  {
    if run.After? {
      GarbageUnseen(g, h, run.past);
      if Reach(g, run.past).Some? {
        Invariants(g, run.past);
        GarbageStep(Reach(g, run.past).value, Reach(h, run.past).value, run.event);
      }
    }
  }

  lemma GarbageStep(s: State, t: State, e: Event)
    requires SameButGarbage(s, t) && TraceInv(s)
    ensures Enabled(s, e) <==> Enabled(t, e)
    ensures Enabled(s, e) ==> (Step(s, e).Some? <==> Step(t, e).Some?)
    ensures Enabled(s, e) && Step(s, e).Some? ==> SameButGarbage(Step(s, e).value, Step(t, e).value)
  {
  }

  /* ---------- the index and the log ---------- */

  /** The accepted lines of all rosters read on the data socket, oldest first. */
  function DataLog(user: string, run: Run): seq<Entry>
  {
    match run
    case Fresh => []
    case After(past, e) =>
      DataLog(user, past) +
      if e.DataRead? && e.reply.Full? && !e.reply.push && e.reply.roster.Some?
      then Accepted(user, e.reply.roster.value) else []
  }

  /** The names looked up by double clicks. */
  function LookedUp(g: Garbage, run: Run): set<string>
  {
    match run
    case Fresh => {}
    case After(past, e) =>
      LookedUp(g, past) +
      if e.DoubleClick? && Reach(g, past).Some? && e.row < |Reach(g, past).value.shown|
      then {Reach(g, past).value.shown[e.row]} else {}
  }

  lemma {:induction false} NoDataBeforeLogin(g: Garbage, run: Run, user: string)
    requires Reach(g, run).Some? && Reach(g, run).value.control == Null
    ensures DataLog(user, run) == []
    decreases run
  {
    if run.After? {
      Invariants(g, run.past);
      StepFrame(Reach(g, run.past).value, run.event);
      NoDataBeforeLogin(g, run.past, user);
    }
  }

  /** `peers` as a search over the log says it should be, at one name. */
  ghost predicate IndexAt(peers: map<string, int>, log: seq<Entry>, looked: set<string>, name: string)
  {
    && (name in peers <==> LastId(log, name).Some? || name in looked)
    && (name in peers ==> peers[name] == if LastId(log, name).Some? then LastId(log, name).value else 0)
  }

  lemma IndexStore(peers: map<string, int>, log: seq<Entry>, looked: set<string>, es: seq<Entry>, name: string)
    requires IndexAt(peers, log, looked, name)
    ensures IndexAt(Store(peers, es), log + es, looked, name)
  {
    LastIdAppend(log, es, name);
    StoreIsLastId(peers, es, name);
  }

  /**
   The index agrees with the log: a name is a key exactly when some roster line accepted it or a
   double click looked it up, and its id is the one on its last accepted line, else 0.
   */
  lemma {:induction false} IndexAgreesWithLog(g: Garbage, run: Run, name: string)
    requires Reach(g, run).Some?
    ensures var s := Reach(g, run).value;
            IndexAt(s.peers, DataLog(s.username, run), LookedUp(g, run), name)
    decreases run
  {
    if run.After? {
      IndexAgreesWithLog(g, run.past, name);
      var s, s', e := Reach(g, run.past).value, Reach(g, run).value, run.event;
      StepFrame(s, e);
      if e.DataRead? && !e.reply.push {
        DataReadFrame(s, e.reply, e.connected);
        IndexStore(s.peers, DataLog(s.username, run.past), LookedUp(g, run.past),
                   Accepted(s.username, e.reply.roster.value), name);
      } else {
        DataLogSame(s'.username, run);
        if s.control == Null && e.Login? {
          NoDataBeforeLogin(g, run.past, s.username);
          NoDataBeforeLogin(g, run.past, s'.username);
        }
      }
    }
  }

  lemma DataLogSame(user: string, run: Run)
    requires run.After? && !(run.event.DataRead? && run.event.reply.Full? && !run.event.reply.push)
    ensures DataLog(user, run) == DataLog(user, run.past)
  {
  }

  /** Keys are never removed. */
  lemma {:induction false} KeysStay(g: Garbage, run: Run, longer: Run, name: string)
    requires Continues(longer, run) && Reach(g, longer).Some?
    ensures Reach(g, run).Some?
    ensures name in Reach(g, run).value.peers ==> name in Reach(g, longer).value.peers
    decreases longer
  {
    if longer != run {
      KeysStay(g, run, longer.past, name);
      var s, e := Reach(g, longer.past).value, longer.event;
      if e.DataRead? && !e.reply.push {
        DataReadFrame(s, e.reply, e.connected);
        StoreIsLastId(s.peers, Accepted(s.username, e.reply.roster.value), name);
      }
    }
  }

  /* ---------- the displayed list ---------- */

  datatype Source = Nowhere | Control(reply: Response) | Data(reply: Response)

  function NextSource(src: Source, e: Event): Source
  {
    match e
    case ControlRead(r, _) => Control(r)
    case DataRead(r, _) => if r.Full? && !r.push then Data(r) else src
    case _ => src
  }

  /** Which response the displayed list was taken from. */
  function ListSource(run: Run): Source
  {
    match run
    case Fresh => Nowhere
    case After(past, e) => NextSource(ListSource(past), e)
  }

  ghost predicate ShownFrom(s: State, src: Source)
  {
    match src
    case Nowhere => s.shown == []
    case Control(r) =>
      s.control != Null && r.Full? && r.roster.Some? && s.shown == Names(Accepted(s.username, r.roster.value))
    case Data(r) =>
      && s.control != Null && r.Full? && r.roster.Some?
      && s.shown == Names(Accepted(s.username, r.roster.value))
      && forall name :: name in s.shown ==>
           name in s.peers && Some(s.peers[name]) == LastId(Accepted(s.username, r.roster.value), name)
  }

  lemma DataListResolves(peers: map<string, int>, es: seq<Entry>)
    ensures forall name :: name in Names(es) ==>
              name in Store(peers, es) && Some(Store(peers, es)[name]) == LastId(es, name)
  {
    forall name | name in Names(es)
      ensures name in Store(peers, es) && Some(Store(peers, es)[name]) == LastId(es, name)
    {
      LastIdSome(es, name);
      StoreIsLastId(peers, es, name);
    }
  }

  /**
   The displayed list is that of the latest list-carrying response, and when that was a data
   roster every displayed name resolves to the id on its last accepted line there.
   */
  lemma {:induction false} ShownNamesResolve(g: Garbage, run: Run)
    requires Reach(g, run).Some?
    ensures ShownFrom(Reach(g, run).value, ListSource(run))
    decreases run
  {
    if run.After? {
      ShownNamesResolve(g, run.past);
      Invariants(g, run.past);
      ShownStep(Reach(g, run.past).value, ListSource(run.past), run.event);
    }
  }

  lemma ShownStep(s: State, src: Source, e: Event)
    requires ShownFrom(s, src) && SessionInv(s) && Enabled(s, e) && Step(s, e).Some?
    ensures ShownFrom(Step(s, e).value, NextSource(src, e))
  {
    match e
    case ControlRead(r, c) => ControlReadFrame(s, r, c);
    case DataRead(r, c) =>
      DataReadFrame(s, r, c);
      if !r.push { DataListResolves(s.peers, Accepted(s.username, r.roster.value)); }
    case _ =>
  }

  lemma ControlTakes(s: State, r: Response, c: bool)
    ensures OnControlRead(s, r, c).Some? <==> r.Full? && r.roster.Some?
    ensures OnControlRead(s, r, c).Some? ==>
              OnControlRead(s, r, c).value.shown == Names(Accepted(s.username, r.roster.value))
  {
    if OnControlRead(s, r, c).Some? { ControlReadFrame(s, r, c); }
  }

  lemma DataTakes(s: State, r: Response, c: bool)
    ensures OnDataRead(s, r, c).Some? <==> r.Full? && (r.push || r.roster.Some?)
    ensures OnDataRead(s, r, c).Some? ==>
              var s' := OnDataRead(s, r, c).value;
              && s'.shown == (if r.push then s.shown else Names(Accepted(s.username, r.roster.value)))
              && s'.peers == (if r.push then s.peers else Store(s.peers, Accepted(s.username, r.roster.value)))
  {
    if OnDataRead(s, r, c).Some? { DataReadFrame(s, r, c); }
  }

  /**
   From printed text to the displayed list, for any text as header: exactly the other, active peers,
   in printed order, or those of the header's second part if it has one.
   */
  lemma {:induction false} RosterReachesList(s: State, k: nat, h: string, n: nat, w: string, es: seq<Entry>, c: bool)
    requires AllPlain(es) && LineTail(w)
    ensures var o := OnControlRead(s, Decode(PrintPadded(k, h, n, w, es)), c);
            var taken := TakenRoster(h, es);
            && (o.Some? <==> taken.Some?)
            && (o.Some? ==> o.value.shown == Names(Accepted(s.username, taken.value)))
  {
    RosterTakenForPush(k, h, n, w, es);
    ControlTakes(s, Decode(PrintPadded(k, h, n, w, es)), c);
  }

  /** The same text on the data socket: list and index follow, or nothing changes for a push. */
  lemma {:induction false} RosterReachesIndex(s: State, k: nat, h: string, n: nat, w: string, es: seq<Entry>, c: bool)
    requires AllPlain(es) && LineTail(w)
    ensures var o := OnDataRead(s, Decode(PrintPadded(k, h, n, w, es)), c);
            var taken, push := TakenRoster(h, es), TakenForPush(h, es);
            && (o.Some? <==> push || taken.Some?)
            && (push ==> o.value.shown == s.shown && o.value.peers == s.peers)
            && (!push && taken.Some? ==>
                  && o.value.shown == Names(Accepted(s.username, taken.value))
                  && o.value.peers == Store(s.peers, Accepted(s.username, taken.value)))
  {
    RosterTakenForPush(k, h, n, w, es);
    DataTakes(s, Decode(PrintPadded(k, h, n, w, es)), c);
  }

  /* ---------- pushes do not interfere ---------- */

  /** The run without the data responses whose body starts with a brace. */
  function ErasePushes(run: Run): Run
  {
    match run
    case Fresh => Fresh
    case After(past, e) =>
      if e.DataRead? && e.reply.Full? && e.reply.push then ErasePushes(past)
      else After(ErasePushes(past), e)
  }

  /** All a user can see is the same; the data socket is at least as connected. */
  ghost predicate SameView(s: State, t: State)
  {
    && t.myId == s.myId && t.control == s.control
    && t.username == s.username && t.host == s.host && t.port == s.port
    && t.peers == s.peers && t.shown == s.shown
    && t.isLoggedIn == s.isLoggedIn && t.isSigningOut == s.isSigningOut && t.isCalling == s.isCalling
    && (s.data == Null <==> t.data == Null)
    && (s.data == Connected ==> t.data == Connected)
  }

  lemma OpenBoth(s: State, t: State, c: bool)
    requires SameView(s, t)
    ensures SameView(OpenData(s, c), OpenData(t, c))
    ensures t.data == Connected ==> SameView(OpenData(s, c), t)
  {
    OpenDataFrame(s, c);
    OpenDataFrame(t, c);
  }

  ghost function Reopen(m: State, c: bool): State
  {
    if m.data == Unconnected then OpenData(m, c) else m
  }

  lemma ReopenView(m: State, n: State, c: bool)
    requires SameView(m, n) && m.data != Null
    ensures SameView(Reopen(m, c), Reopen(n, c))
  {
    OpenBoth(m, n, c);
  }

  lemma ControlView(s: State, t: State, r: Response, c: bool)
    requires SameView(s, t) && OnControlRead(s, r, c).Some?
    ensures OnControlRead(t, r, c).Some? && SameView(OnControlRead(s, r, c).value, OnControlRead(t, r, c).value)
  {
    ReplySteps(s, r, c);
    ReplySteps(t, r, c);
    ReopenView(AfterControlReply(s, r), AfterControlReply(t, r), c);
  }

  lemma DataView(s: State, t: State, r: Response, c: bool)
    requires SameView(s, t) && OnDataRead(s, r, c).Some? && !r.push
    ensures OnDataRead(t, r, c).Some? && SameView(OnDataRead(s, r, c).value, OnDataRead(t, r, c).value)
  {
    ReplySteps(s, r, c);
    ReplySteps(t, r, c);
    OpenBoth(AfterDataReply(s, r), AfterDataReply(t, r), c);
  }

  lemma LoginFields(s: State, h: string, p: UShort, u: string, c: bool)
    ensures var s' := OnLogin(s, h, p, u, c);
            var go := h != "" && u != "" && p != 0;
            if s.control != Null then s' == s
            else
              && s'.host == h && s'.port == p && s'.username == u
              && s'.control == (if !go then Null else if c then Connected else Unconnected)
              && s'.shown == (if go then [] else s.shown)
              && s'.isLoggedIn == (s.isLoggedIn || (go && c && !s.isSigningOut))
              && s'.isSigningOut == s.isSigningOut && s'.isCalling == s.isCalling
              && s'.myId == s.myId && s'.peers == s.peers && s'.data == s.data
  {
    InitFields(s.(host := h, port := p, username := u), c);
  }

  lemma InitFields(s: State, c: bool)
    ensures var s' := InitializeConnection(s, c);
            s' == s.(control := if c then Connected else Unconnected, shown := [],
                     isLoggedIn := s.isLoggedIn || (c && !s.isSigningOut), trace := s'.trace)
  {
  }

  lemma {:induction false} LoginView(s: State, t: State, h: string, p: UShort, u: string, c: bool)
    requires SameView(s, t)
    ensures SameView(OnLogin(s, h, p, u, c), OnLogin(t, h, p, u, c))
  {
    LoginFields(s, h, p, u, c);
    LoginFields(t, h, p, u, c);
  }

  lemma {:induction false} ViewStep(s: State, t: State, e: Event)
    requires SameView(s, t) && Enabled(s, e) && Step(s, e).Some?
    requires !(e.DataRead? && e.reply.Full? && e.reply.push)
    ensures Enabled(t, e) && Step(t, e).Some? && SameView(Step(s, e).value, Step(t, e).value)
  {
    match e
    case ControlRead(r, c) => ControlView(s, t, r, c);
    case DataRead(r, c) => DataView(s, t, r, c);
    case Login(h, p, u, c) => LoginView(s, t, h, p, u, c);
    case _ =>
  }

  lemma PushStep(s: State, t: State, r: Response, c: bool)
    requires SameView(s, t) && s.data == Connected && r.Full? && r.push
    ensures OnDataRead(s, r, c).Some? && SameView(OnDataRead(s, r, c).value, t)
  {
    ReplySteps(s, r, c);
  }

  /** Erasing every push from a run gives a run that ends in the same view. */
  lemma {:induction false} PushesDoNotInterfere(g: Garbage, run: Run)
    requires Reach(g, run).Some?
    ensures Reach(g, ErasePushes(run)).Some?
    ensures SameView(Reach(g, run).value, Reach(g, ErasePushes(run)).value)
    decreases run
  {
    if run.After? {
      PushesDoNotInterfere(g, run.past);
      var s, t, e := Reach(g, run.past).value, Reach(g, ErasePushes(run.past)).value, run.event;
      if e.DataRead? && e.reply.Full? && e.reply.push {
        PushStep(s, t, e.reply, e.connected);
      } else {
        ViewStep(s, t, e);
      }
    }
  }
}
