/**
 The signalling client as a state machine.  An event is one Qt slot invocation; the outcome of a
 `waitForConnected` call is part of the event, and the `connected` slot runs inside that call.
 Responses enter decoded (see module Response), and the port as `toUShort` reads it.  `None` stands
 for a process that has stopped at a list index out of range, or an event that Qt cannot deliver in
 the given state.
 */
module Signalling {
  import opened Options
  import opened Decimal
  import opened Roster
  import opened Response

  datatype Socket = Null | Unconnected | Connected

  /** What the client does that the outside can see, in order. */
  datatype Action =
    | SessionStarted
    | LocalInfoStarted
    | ConnectControl(host: string, port: UShort, ok: bool)
    | SignIn(username: string)
    | RecvControl(reply: Response)
    | ConnectData(host: string, port: UShort, ok: bool)
    | Wait(id: int)
    | RecvData(reply: Response)
    | CloseData
    | LostControl
    | LostData

  datatype Trace = Start | Then(before: Trace, last: Action)

  datatype State = State(
    myId: int, control: Socket, data: Socket,
    username: string, host: string, port: UShort,
    peers: map<string, int>,
    isLoggedIn: bool, isSigningOut: bool, isCalling: bool,
    shown: seq<string>,
    trace: Trace)

  /** `my_id` and `port` are not initialised by the constructor: they hold whatever was there. */
  datatype Garbage = Garbage(myId: int, port: UShort)

  function Initial(g: Garbage): State
  {
    State(g.myId, Null, Null, "", "", g.port, map[], false, false, false, [], Start)
  }

  function Log(s: State, a: Action): State
  {
    s.(trace := Then(s.trace, a))
  }

  /* ---------- the slots ---------- */

  function OnControlConnect(s: State): State
  {
    if s.isSigningOut then s else Log(s, SignIn(s.username)).(isLoggedIn := true)
  }

  function InitializeConnection(s: State, connected: bool): State
  {
    var s1 := Log(s.(shown := [], control := Unconnected), SessionStarted);
    var s2 := Log(s1, ConnectControl(s.host, s.port, connected));
    if connected then OnControlConnect(s2.(control := Connected)) else s2
  }

  function OnLogin(s: State, host: string, port: UShort, username: string, connected: bool): State
  {
    if s.control != Null then s
    else
      var s1 := s.(host := host, port := port, username := username);
      if |host| != 0 && |username| != 0 && port != 0
      then Log(InitializeConnection(s1, connected), LocalInfoStarted)
      else s1
  }

  function OnDataConnect(s: State): State
  {
    Log(s, Wait(s.myId))
  }

  /** `connectToHost`, `waitForConnected`, and `connected` delivered inside it. */
  function OpenData(s: State, connected: bool): State
  {
    var s1 := Log(s, ConnectData(s.host, s.port, connected));
    if connected then OnDataConnect(s1.(data := Connected)) else s1.(data := Unconnected)
  }

  /** Id and list taken from a control response; a missing data socket is made. */
  function AfterControlReply(s: State, r: Response): State
    requires r.Full? && r.roster.Some?
  {
    Log(s, RecvControl(r)).(myId := r.id,
                            shown := Names(Accepted(s.username, r.roster.value)),
                            data := if s.data == Null then Unconnected else s.data)
  }

  function OnControlRead(s: State, reply: Response, connected: bool): Option<State>
  {
    if reply.Short? || reply.roster.None? then None
    else
      var s1 := AfterControlReply(s, reply);
      Some(if s1.data == Unconnected then OpenData(s1, connected) else s1)
  }

  /** Index and list taken from a data roster, nothing from a push; then the data socket is closed. */
  function AfterDataReply(s: State, r: Response): State
    requires r.Full? && (r.push || r.roster.Some?)
  {
    var s1 := Log(Log(s, RecvData(r)), CloseData).(data := Unconnected);
    if r.push then s1
    else
      var es := Accepted(s.username, r.roster.value);
      s1.(peers := Store(s.peers, es), shown := Names(es))
  }

  function OnDataRead(s: State, reply: Response, connected: bool): Option<State>
  {
    if reply.Short? || (!reply.push && reply.roster.None?) then None
    else if reply.push && s.isCalling then Some(Log(s, RecvData(reply)))
    else Some(OpenData(AfterDataReply(s, reply), connected))
  }

  /** `peers[name]` on a `std::map` inserts 0 for an absent key. */
  function OnDoubleClick(s: State, row: nat): State
    requires row < |s.shown|
  {
    var name := s.shown[row];
    s.(peers := if name in s.peers then s.peers else s.peers[name := 0], isCalling := true)
  }

  /* ---------- events and runs ---------- */

  datatype Event =
    | Login(host: string, port: UShort, username: string, connected: bool)
    | ControlRead(reply: Response, connected: bool)
    | DataRead(reply: Response, connected: bool)
    | ControlDisconnect
    | DataDisconnect
    | DoubleClick(row: nat)

  /** Qt reads and disconnects only on a connected socket; a click needs a row to click on. */
  predicate Enabled(s: State, e: Event)
  {
    match e
    case Login(_, _, _, _) => true
    case ControlRead(_, _) => s.control == Connected
    case DataRead(_, _) => s.data == Connected
    case ControlDisconnect => s.control == Connected
    case DataDisconnect => s.data == Connected
    case DoubleClick(row) => row < |s.shown|
  }

  function Step(s: State, e: Event): Option<State>
    requires Enabled(s, e)
  {
    match e
    case Login(h, p, u, c) => Some(OnLogin(s, h, p, u, c))
    case ControlRead(r, c) => OnControlRead(s, r, c)
    case DataRead(r, c) => OnDataRead(s, r, c)
    case ControlDisconnect => Some(Log(s, LostControl).(control := Unconnected))
    case DataDisconnect => Some(Log(s, LostData).(data := Unconnected))
    case DoubleClick(row) => Some(OnDoubleClick(s, row))
  }

  datatype Run = Fresh | After(past: Run, event: Event)

  /** The state a run ends in, if it can take place. */
  function Reach(g: Garbage, run: Run): Option<State>
  {
    match run
    case Fresh => Some(Initial(g))
    case After(past, e) =>
      var before := Reach(g, past);
      if before.Some? && Enabled(before.value, e) then Step(before.value, e) else None
  }

  /* ---------- readings of a trace ---------- */

  function Sessions(t: Trace): nat
  {
    if t.Start? then 0 else Sessions(t.before) + if t.last.SessionStarted? then 1 else 0
  }

  function LocalInfos(t: Trace): nat
  {
    if t.Start? then 0 else LocalInfos(t.before) + if t.last.LocalInfoStarted? then 1 else 0
  }

  /** `/wait` requests sent. */
  function Waits(t: Trace): nat
  {
    if t.Start? then 0 else Waits(t.before) + if t.last.Wait? then 1 else 0
  }

  /** Data connections that came up. */
  function DataOpens(t: Trace): nat
  {
    if t.Start? then 0 else DataOpens(t.before) + if t.last.ConnectData? && t.last.ok then 1 else 0
  }

  /** `/wait` requests still waiting for a response on a live connection. */
  function Unanswered(t: Trace): nat
  {
    if t.Start? then 0
    else
      var u := Unanswered(t.before);
      match t.last
      case Wait(_) => u + 1
      case RecvData(_) => if u == 0 then 0 else u - 1
      case LostData => 0
      case CloseData => 0
      case _ => u
  }

  function Answered(t: Trace): nat
  {
    if t.Start? then 0
    else Answered(t.before) + if t.last.RecvData? && Unanswered(t.before) > 0 then 1 else 0
  }

  /** Unanswered when the server dropped the connection. */
  function LostWaits(t: Trace): nat
  {
    if t.Start? then 0 else LostWaits(t.before) + if t.last.LostData? then Unanswered(t.before) else 0
  }

  /** Unanswered when the client itself closed the connection. */
  function DroppedWaits(t: Trace): nat
  {
    if t.Start? then 0 else DroppedWaits(t.before) + if t.last.CloseData? then Unanswered(t.before) else 0
  }

  /** Data connections that are up: opened, and neither closed nor lost since. */
  function LiveData(t: Trace): int
  {
    if t.Start? then 0
    else
      LiveData(t.before) +
      (if t.last.ConnectData? && t.last.ok then 1 else if t.last.CloseData? || t.last.LostData? then -1 else 0)
  }

  /** Control connections that are up: opened and not lost since. */
  function LiveControl(t: Trace): int
  {
    if t.Start? then 0
    else
      LiveControl(t.before) +
      (if t.last.ConnectControl? && t.last.ok then 1 else if t.last.LostControl? then -1 else 0)
  }

  /** Attempts to connect, successful or not. */
  function ControlAttempts(t: Trace): nat
  {
    if t.Start? then 0 else ControlAttempts(t.before) + if t.last.ConnectControl? then 1 else 0
  }

  function DataAttempts(t: Trace): nat
  {
    if t.Start? then 0 else DataAttempts(t.before) + if t.last.ConnectData? then 1 else 0
  }

  /** Reasons to connect the data socket: it was just closed, or is down when a control response comes. */
  function DataOccasions(t: Trace): nat
  {
    if t.Start? then 0
    else
      DataOccasions(t.before) +
      if t.last.CloseData? || (t.last.RecvControl? && LiveData(t.before) == 0) then 1 else 0
  }

  function SignIns(t: Trace): nat
  {
    if t.Start? then 0 else SignIns(t.before) + if t.last.SignIn? then 1 else 0
  }

  function ControlOpens(t: Trace): nat
  {
    if t.Start? then 0 else ControlOpens(t.before) + if t.last.ConnectControl? && t.last.ok then 1 else 0
  }

  /** Every connect goes to this host and port, and every sign-in names this user. */
  ghost predicate AddressedTo(t: Trace, host: string, port: UShort, username: string)
  {
    t.Start? ||
    (&& AddressedTo(t.before, host, port, username)
     && (t.last.ConnectControl? || t.last.ConnectData? ==> t.last.host == host && t.last.port == port)
     && (t.last.SignIn? ==> t.last.username == username))
  }

  /** The id taken from the latest control response. */
  function LatestId(t: Trace): Option<int>
  {
    if t.Start? then None
    else if t.last.RecvControl? && t.last.reply.Full? then Some(t.last.reply.id)
    else LatestId(t.before)
  }

  /** The latest read or write on the data socket. */
  function LatestExchange(t: Trace): Option<Action>
  {
    if t.Start? then None
    else if t.last.Wait? || t.last.RecvData? then Some(t.last)
    else LatestExchange(t.before)
  }

  ghost predicate IsPrefix(p: Trace, t: Trace)
  {
    p == t || (t.Then? && IsPrefix(p, t.before))
  }

  /** Every `/wait` in the trace carries the id of the latest control response before it. */
  ghost predicate WaitsCarryId(t: Trace)
  {
    t.Start? ||
    (WaitsCarryId(t.before) && (t.last.Wait? ==> LatestId(t.before) == Some(t.last.id)))
  }
}
