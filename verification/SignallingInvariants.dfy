/** What every slot keeps: the invariants of the signalling client, step by step and over runs. */
module SignallingInvariants {
  import opened Options
  import opened Decimal
  import opened Roster
  import opened Response
  import opened Signalling

  /* ---------- invariants ---------- */

  /** Logged in at most once; afterwards the login data is fixed and usable. */
  ghost predicate SessionInv(s: State)
  {
    && !s.isSigningOut
    && Sessions(s.trace) == LocalInfos(s.trace) == (if s.control == Null then 0 else 1)
    && (s.control == Null ==> s.data == Null && s.shown == [] && s.peers == map[] && !s.isLoggedIn && !s.isCalling)
    && (s.control != Null ==> s.host != "" && s.username != "" && 1 <= s.port <= USHORT_MAX)
  }

  /** One live data connection at most, one sign-in per control connection, all to one address. */
  ghost predicate LinkInv(s: State)
  {
    && (s.control == Null ==> s.trace == Start)
    && LiveData(s.trace) == (if s.data == Connected then 1 else 0)
    && LiveControl(s.trace) == (if s.control == Connected then 1 else 0)
    && SignIns(s.trace) == ControlOpens(s.trace) == (if s.isLoggedIn then 1 else 0)
    && AddressedTo(s.trace, s.host, s.port, s.username)
  }

  ghost predicate NoSelfInv(s: State)
  {
    s.username !in s.shown && s.username !in s.peers
  }

  ghost predicate IdentityInv(s: State)
  {
    && WaitsCarryId(s.trace)
    && (LatestId(s.trace).Some? ==> LatestId(s.trace) == Some(s.myId))
    && (s.data != Null ==> LatestId(s.trace).Some?)
  }

  ghost predicate PollingInv(s: State)
  {
    && Waits(s.trace) == DataOpens(s.trace)
    && DroppedWaits(s.trace) == 0
    && (s.data != Connected ==> Unanswered(s.trace) == 0)
    && (s.data == Connected ==>
          match LatestExchange(s.trace)
          case Some(Wait(_)) => Unanswered(s.trace) == 1
          case Some(RecvData(r)) => Unanswered(s.trace) == 0 && s.isCalling && r.Full? && r.push
          case _ => false)
  }

  /** Opening the data socket appends a connect and, if it came up, one `/wait` with `my_id`. */
  lemma OpenDataEffect(s: State, connected: bool)
    ensures var t, t' := s.trace, OpenData(s, connected).trace;
            var n := if connected then 1 else 0;
            && Sessions(t') == Sessions(t) && LocalInfos(t') == LocalInfos(t)
            && LatestId(t') == LatestId(t)
            && (WaitsCarryId(t') <==> WaitsCarryId(t) && (connected ==> LatestId(t) == Some(s.myId)))
            && Waits(t') == Waits(t) + n && DataOpens(t') == DataOpens(t) + n
            && Unanswered(t') == Unanswered(t) + n && DroppedWaits(t') == DroppedWaits(t)
            && LatestExchange(t') == if connected then Some(Wait(s.myId)) else LatestExchange(t)
  {
    var t1 := Then(s.trace, ConnectData(s.host, s.port, connected));
    assert Waits(t1) == Waits(s.trace) && LatestId(t1) == LatestId(s.trace);
    assert WaitsCarryId(t1) <==> WaitsCarryId(s.trace);
  }

  /** Readings of a trace that concern the data socket. */
  ghost predicate SameDataReadings(t: Trace, t': Trace)
  {
    && LatestId(t') == LatestId(t) && (WaitsCarryId(t') <==> WaitsCarryId(t))
    && Waits(t') == Waits(t) && DataOpens(t') == DataOpens(t)
    && Unanswered(t') == Unanswered(t) && DroppedWaits(t') == DroppedWaits(t)
    && LatestExchange(t') == LatestExchange(t)
  }

  lemma LoginAction(t: Trace, a: Action)
    requires a.SessionStarted? || a.ConnectControl? || a.SignIn? || a.LocalInfoStarted?
    ensures SameDataReadings(t, Then(t, a))
    ensures Sessions(Then(t, a)) == Sessions(t) + if a.SessionStarted? then 1 else 0
    ensures LocalInfos(Then(t, a)) == LocalInfos(t) + if a.LocalInfoStarted? then 1 else 0
  {
  }

  /** A login that goes ahead opens one session and touches nothing of the data socket. */
  lemma LoginEffect(s: State, h: string, p: UShort, u: string, connected: bool)
    requires s.control == Null && h != "" && u != "" && p != 0
    ensures var t, t' := s.trace, OnLogin(s, h, p, u, connected).trace;
            && Sessions(t') == Sessions(t) + 1 && LocalInfos(t') == LocalInfos(t) + 1
            && SameDataReadings(t, t')
  {
    var t1 := Then(s.trace, SessionStarted);
    var t2 := Then(t1, ConnectControl(h, p, connected));
    var t3 := if connected && !s.isSigningOut then Then(t2, SignIn(u)) else t2;
    LoginAction(s.trace, t1.last);
    LoginAction(t1, t2.last);
    LoginAction(t2, SignIn(u));
    LoginAction(t3, LocalInfoStarted);
    assert OnLogin(s, h, p, u, connected).trace == Then(t3, LocalInfoStarted);
  }

  lemma ReplySteps(s: State, r: Response, connected: bool)
    requires r.Full?
    ensures r.roster.Some? ==>
              var m := AfterControlReply(s, r);
              OnControlRead(s, r, connected) == Some(if m.data == Unconnected then OpenData(m, connected) else m)
    ensures r.push || r.roster.Some? ==>
              OnDataRead(s, r, connected) ==
              if r.push && s.isCalling then Some(Log(s, RecvData(r)))
              else Some(OpenData(AfterDataReply(s, r), connected))
  {
  }

  lemma OpenDataFrame(s: State, connected: bool)
    ensures var s' := OpenData(s, connected);
            && s' == s.(data := s'.data, trace := s'.trace)
            && s'.data == if connected then Connected else Unconnected
  {
  }

  lemma ControlReadFrame(s: State, r: Response, c: bool)
    requires OnControlRead(s, r, c).Some?
    ensures var s' := OnControlRead(s, r, c).value;
            && s'.host == s.host && s'.port == s.port && s'.username == s.username
            && s'.control == s.control && s'.peers == s.peers && s'.isCalling == s.isCalling
            && s'.shown == Names(Accepted(s.username, r.roster.value))
  {
    ReplySteps(s, r, c);
    OpenDataFrame(AfterControlReply(s, r), c);
  }

  lemma DataReadFrame(s: State, r: Response, c: bool)
    requires OnDataRead(s, r, c).Some?
    ensures var s' := OnDataRead(s, r, c).value;
            && s'.host == s.host && s'.port == s.port && s'.username == s.username
            && s'.control == s.control && s'.isCalling == s.isCalling
            && s'.peers == (if r.push then s.peers else Store(s.peers, Accepted(s.username, r.roster.value)))
            && s'.shown == (if r.push then s.shown else Names(Accepted(s.username, r.roster.value)))
  {
    ReplySteps(s, r, c);
    OpenDataFrame(AfterDataReply(s, r), c);
  }

  /** What a step leaves alone: the login data once logged in, the index but for two events. */
  lemma {:induction false} StepFrame(s: State, e: Event)
    requires Enabled(s, e) && Step(s, e).Some?
    ensures var s' := Step(s, e).value;
            && (s.control != Null || !e.Login? ==>
                  s'.host == s.host && s'.port == s.port && s'.username == s.username)
            && (s.control != Null ==> s'.control != Null)
            && (s'.isCalling <==> s.isCalling || e.DoubleClick?)
            && (e.DoubleClick? || (e.DataRead? && !e.reply.push) || s'.peers == s.peers)
  {
    match e
    case ControlRead(r, c) => ControlReadFrame(s, r, c);
    case DataRead(r, c) => DataReadFrame(s, r, c);
    case _ =>
  }

  /** The three invariants that speak about the trace. */
  ghost predicate TraceInv(s: State)
  {
    SessionInv(s) && IdentityInv(s) && PollingInv(s)
  }

  lemma LoginKeeps(s: State, h: string, p: UShort, u: string, connected: bool)
    requires TraceInv(s)
    ensures TraceInv(OnLogin(s, h, p, u, connected))
  {
    if s.control == Null && h != "" && u != "" && p != 0 {
      LoginEffect(s, h, p, u, connected);
    }
  }

  lemma OpenDataKeeps(s: State, connected: bool)
    requires SessionInv(s) && IdentityInv(s) && s.control != Null && s.data == Unconnected
    requires Waits(s.trace) == DataOpens(s.trace) && DroppedWaits(s.trace) == 0 && Unanswered(s.trace) == 0
    ensures TraceInv(OpenData(s, connected))
  {
    OpenDataEffect(s, connected);
  }

  lemma ControlReadKeeps(s: State, r: Response, connected: bool)
    requires TraceInv(s) && s.control == Connected && OnControlRead(s, r, connected).Some?
    ensures TraceInv(OnControlRead(s, r, connected).value)
  {
    ReplySteps(s, r, connected);
    var m := AfterControlReply(s, r);
    if m.data == Unconnected { OpenDataKeeps(m, connected); }
  }

  lemma DataReadKeeps(s: State, r: Response, connected: bool)
    requires TraceInv(s) && s.data == Connected && OnDataRead(s, r, connected).Some?
    ensures TraceInv(OnDataRead(s, r, connected).value)
  {
    ReplySteps(s, r, connected);
    if !(r.push && s.isCalling) {
      var t1 := Then(s.trace, RecvData(r));
      assert Unanswered(t1) == 0 && DroppedWaits(t1) == 0 && Waits(t1) == DataOpens(t1);
      assert Sessions(t1) == Sessions(s.trace) && LocalInfos(t1) == LocalInfos(s.trace);
      assert WaitsCarryId(t1) && LatestId(t1) == LatestId(s.trace);
      OpenDataKeeps(AfterDataReply(s, r), connected);
    }
  }

  lemma TraceStep(s: State, e: Event)
    requires TraceInv(s) && Enabled(s, e) && Step(s, e).Some?
    ensures TraceInv(Step(s, e).value)
  {
    match e
    case Login(h, p, u, c) => LoginKeeps(s, h, p, u, c);
    case ControlRead(r, c) => ControlReadKeeps(s, r, c);
    case DataRead(r, c) => DataReadKeeps(s, r, c);
    case _ =>
  }

  lemma OpenDataLinks(s: State, connected: bool)
    requires LinkInv(s) && s.control != Null && s.data == Unconnected
    ensures LinkInv(OpenData(s, connected))
  {
    var t1 := Then(s.trace, ConnectData(s.host, s.port, connected));
    assert LiveData(t1) == (if connected then 1 else 0) && SignIns(t1) == SignIns(s.trace);
    assert LiveControl(t1) == LiveControl(s.trace);
    assert ControlOpens(t1) == ControlOpens(s.trace) && AddressedTo(t1, s.host, s.port, s.username);
  }

  lemma LoginLinks(s: State, h: string, p: UShort, u: string, connected: bool)
    requires SessionInv(s) && LinkInv(s) && s.control == Null && h != "" && u != "" && p != 0
    ensures LinkInv(OnLogin(s, h, p, u, connected))
  {
    var t1 := Then(Start, SessionStarted);
    var t2 := Then(t1, ConnectControl(h, p, connected));
    var t3 := if connected then Then(t2, SignIn(u)) else t2;
    assert OnLogin(s, h, p, u, connected).trace == Then(t3, LocalInfoStarted);
    assert LiveData(t1) == 0 && SignIns(t1) == 0 && ControlOpens(t1) == 0 && AddressedTo(t1, h, p, u);
    assert LiveData(t2) == 0 && SignIns(t2) == 0 && AddressedTo(t2, h, p, u);
    assert ControlOpens(t2) == LiveControl(t2) == (if connected then 1 else 0) by { assert LiveControl(t1) == 0; }
    assert LiveData(t3) == 0 && SignIns(t3) == ControlOpens(t3) == LiveControl(t3) && AddressedTo(t3, h, p, u);
  }

  lemma ControlReadLinks(s: State, r: Response, connected: bool)
    requires LinkInv(s) && s.control == Connected && OnControlRead(s, r, connected).Some?
    ensures LinkInv(OnControlRead(s, r, connected).value)
  {
    ReplySteps(s, r, connected);
    var m := AfterControlReply(s, r);
    if m.data == Unconnected { OpenDataLinks(m, connected); }
  }

  lemma RecvLinks(s: State, r: Response)
    requires LinkInv(s) && s.control != Null
    ensures LinkInv(Log(s, RecvData(r)))
  {
  }

  lemma CloseLinks(s: State, m: State)
    requires LinkInv(s) && s.control != Null && s.data == Connected
    requires m.control == s.control && m.data == Unconnected && m.trace == Then(s.trace, CloseData)
    requires m.host == s.host && m.port == s.port && m.username == s.username && m.isLoggedIn == s.isLoggedIn
    ensures LinkInv(m)
  {
  }

  lemma DataReadLinks(s: State, r: Response, connected: bool)
    requires LinkInv(s) && s.control != Null && s.data == Connected && OnDataRead(s, r, connected).Some?
    ensures LinkInv(OnDataRead(s, r, connected).value)
  {
    ReplySteps(s, r, connected);
    RecvLinks(s, r);
    if !(r.push && s.isCalling) {
      CloseLinks(Log(s, RecvData(r)), AfterDataReply(s, r));
      OpenDataLinks(AfterDataReply(s, r), connected);
    }
  }

  lemma LinkStep(s: State, e: Event)
    requires SessionInv(s) && LinkInv(s) && Enabled(s, e) && Step(s, e).Some?
    ensures LinkInv(Step(s, e).value)
  {
    match e
    case Login(h, p, u, c) =>
      if s.control == Null && h != "" && u != "" && p != 0 { LoginLinks(s, h, p, u, c); }
    case ControlRead(r, c) => ControlReadLinks(s, r, c);
    case DataRead(r, c) => DataReadLinks(s, r, c);
    case _ =>
  }

  lemma StoreAvoids(peers: map<string, int>, user: string, es: seq<Entry>)
    requires user !in peers
    ensures user !in Store(peers, Accepted(user, es))
  {
    StoreIsLastId(peers, Accepted(user, es), user);
    LastIdSome(Accepted(user, es), user);
    UserNeverNamed(user, es);
  }

  lemma NoSelfStep(s: State, e: Event)
    requires SessionInv(s) && NoSelfInv(s) && Enabled(s, e) && Step(s, e).Some?
    ensures NoSelfInv(Step(s, e).value)
  {
    match e
    case ControlRead(r, _) => UserNeverNamed(s.username, r.roster.value);
    case DataRead(r, _) =>
      if !r.push {
        UserNeverNamed(s.username, r.roster.value);
        StoreAvoids(s.peers, s.username, r.roster.value);
      }
    case _ =>
  }

  lemma {:induction false} Invariants(g: Garbage, run: Run)
    requires Reach(g, run).Some?
    ensures var s := Reach(g, run).value;
            TraceInv(s) && LinkInv(s) && NoSelfInv(s)
    decreases run
  {
    if run.After? {
      Invariants(g, run.past);
      var s := Reach(g, run.past).value;
      TraceStep(s, run.event);
      LinkStep(s, run.event);
      NoSelfStep(s, run.event);
    }
  }
}
