/**
 The dialog object itself: its fields, updated in place by its slots.  Each slot is proved to take
 the step of module Signalling, so the object is always in a state reached by some run there.
 */
module VideoChat {
  import opened Options
  import opened Decimal
  import opened NumberText
  import opened Protocol
  import opened Roster
  import opened Response
  import opened Signalling
  import opened SignallingInvariants
  import opened SignallingRuns

  class Dialog {
    var myId: int
    var controlSocket: Socket
    var dataSocket: Socket
    var username: string
    var host: string
    var port: UShort
    var peers: map<string, int>
    var isLoggedIn: bool
    var isSigningOut: bool
    var isCalling: bool
    var model: seq<string>
    ghost var trace: Trace
    ghost var run: Run
    ghost const garbage: Garbage

    ghost function Abs(): State
      reads this
    {
      State(myId, controlSocket, dataSocket, username, host, port, peers,
            isLoggedIn, isSigningOut, isCalling, model, trace)
    }

    /** The object is where its run leads. */
    ghost predicate Valid()
      reads this
    {
      Reach(garbage, run) == Some(Abs())
    }

    constructor (anyId: int, anyPort: UShort)
      ensures Valid() && run == Fresh && garbage == Garbage(anyId, anyPort)
    {
      myId, port := anyId, anyPort;
      controlSocket, dataSocket := Null, Null;
      username, host, peers, model := "", "", map[], [];
      isLoggedIn, isSigningOut, isCalling := false, false, false;
      trace, run, garbage := Start, Fresh, Garbage(anyId, anyPort);
    }

    method OnLoginClicked(hostText: string, portText: string, userText: string, connected: bool)
      requires Valid()
      modifies this
      ensures Valid() && run == After(old(run), Login(hostText, ToUShort(portText), userText, connected))
      ensures Abs() == OnLogin(old(Abs()), hostText, ToUShort(portText), userText, connected)
      ensures old(controlSocket) == Null ==>
                (controlSocket != Null <==> hostText != "" && userText != "" && PortText(portText))
    {
      PortRead(portText);
      var newPort := ReadUShort(portText);
      LogIn(hostText, newPort, userText, connected);
      run := After(run, Login(hostText, ToUShort(portText), userText, connected));
    }

    method LogIn(newHost: string, newPort: UShort, newUser: string, connected: bool)
      modifies this`host, this`port, this`username, this`model, this`controlSocket, this`trace, this`isLoggedIn
      ensures Abs() == OnLogin(old(Abs()), newHost, newPort, newUser, connected)
    {
      if controlSocket != Null {
        return;
      }
      host := newHost;
      port := newPort;
      username := newUser;
      if |host| != 0 && |username| != 0 && port != 0 {
        StartConnection(connected);
        trace := Then(trace, LocalInfoStarted);
      }
    }

    /** `InitializeConnection`; `connected` is the result of `waitForConnected`. */
    method StartConnection(connected: bool)
      modifies this`model, this`controlSocket, this`trace, this`isLoggedIn
      ensures Abs() == InitializeConnection(old(Abs()), connected)
    {
      model := [];
      controlSocket := Unconnected;
      trace := Then(Then(trace, SessionStarted), ConnectControl(host, port, connected));
      if connected {
        controlSocket := Connected;
        var _ := ControlConnected();
      }
    }

    /** `onControlConnect`; the request is what it writes to the control socket. */
    method ControlConnected() returns (request: Option<string>)
      modifies this`trace, this`isLoggedIn
      ensures Abs() == OnControlConnect(old(Abs()))
      ensures request == if isSigningOut then None else Some(SignInRequest(username))
      ensures request.Some? ==> ReadSignIn(request.value) == if ' ' in username then None else Some(username)
    {
      SignInOfRequest(username);
      if isSigningOut {
        return None;
      }
      request := Some(SignInRequest(username));
      trace := Then(trace, SignIn(username));
      isLoggedIn := true;
    }

    /** `onDataConnect`; the request is what it writes to the data socket. */
    method DataConnected() returns (request: string)
      modifies this`trace
      ensures Abs() == OnDataConnect(old(Abs())) && request == WaitRequest(myId)
      ensures IsInt32(myId) ==> ReadWait(request) == Some(myId)
    {
      ReadWaitOfRequest(myId);
      request := WaitRequest(myId);
      trace := Then(trace, Wait(myId));
    }

    method ConnectDataSocket(connected: bool)
      modifies this`trace, this`dataSocket
      ensures Abs() == OpenData(old(Abs()), connected)
    {
      trace := Then(trace, ConnectData(host, port, connected));
      if connected {
        dataSocket := Connected;
        var _ := DataConnected();
      } else {
        dataSocket := Unconnected;
      }
    }

    /** `ok` is false where the source indexes a list out of range; the process is then gone. */
    method ControlReadyRead(text: string, connected: bool) returns (ok: bool)
      requires Valid() && controlSocket == Connected
      modifies this
      ensures ok <==> OnControlRead(old(Abs()), Decode(text), connected).Some?
      ensures ok ==> Valid() && run == After(old(run), ControlRead(Decode(text), connected))
      ensures ok ==> Some(Abs()) == OnControlRead(old(Abs()), Decode(text), connected)
    {
      var id, listName;
      ok, id, listName := ReadControl(text, username);
      if !ok {
        return;
      }
      TakeControlReply(Decode(text), id, listName, connected);
    }

    method TakeControlReply(ghost reply: Response, id: int, listName: seq<string>, connected: bool)
      requires Valid() && controlSocket == Connected
      requires reply.Full? && reply.roster.Some? && id == reply.id
      requires listName == Names(Accepted(username, reply.roster.value))
      modifies this
      ensures Valid() && run == After(old(run), ControlRead(reply, connected))
      ensures Some(Abs()) == OnControlRead(old(Abs()), reply, connected)
    {
      ShowAndPoll(reply, id, listName, connected);
      run := After(run, ControlRead(reply, connected));
    }

    /** The state change of `onControlRead`: id, list, and the data socket opened if it is down. */
    method ShowAndPoll(ghost reply: Response, id: int, listName: seq<string>, connected: bool)
      requires reply.Full? && reply.roster.Some? && id == reply.id
      requires listName == Names(Accepted(username, reply.roster.value))
      modifies this`myId, this`model, this`dataSocket, this`trace
      ensures Some(Abs()) == OnControlRead(old(Abs()), reply, connected)
    {
      trace := Then(trace, RecvControl(reply));
      myId := id;
      model := listName;
      if dataSocket == Null {
        dataSocket := Unconnected;
      }
      if dataSocket == Unconnected {
        ConnectDataSocket(connected);
      }
    }

    method DataReadyRead(text: string, connected: bool) returns (ok: bool)
      requires Valid() && dataSocket == Connected
      modifies this
      ensures ok <==> OnDataRead(old(Abs()), Decode(text), connected).Some?
      ensures ok ==> Valid() && run == After(old(run), DataRead(Decode(text), connected))
      ensures ok ==> Some(Abs()) == OnDataRead(old(Abs()), Decode(text), connected)
    {
      var push, index, listName;
      ok, push, index, listName := ReadData(text, username, peers);
      if !ok {
        return;
      }
      TakeDataReply(Decode(text), push, index, listName, connected);
    }

    method TakeDataReply(ghost reply: Response, push: bool, index: map<string, int>, listName: seq<string>,
                         connected: bool)
      requires Valid() && dataSocket == Connected
      requires reply.Full? && push == reply.push && (push || reply.roster.Some?)
      requires !push ==> listName == Names(Accepted(username, reply.roster.value))
      requires !push ==> index == Store(peers, Accepted(username, reply.roster.value))
      modifies this
      ensures Valid() && run == After(old(run), DataRead(reply, connected))
      ensures Some(Abs()) == OnDataRead(old(Abs()), reply, connected)
    {
      StoreAndPoll(reply, push, index, listName, connected);
      run := After(run, DataRead(reply, connected));
    }

    /** The state change of `onDataRead`: index and list, then close and reconnect unless in a call. */
    method StoreAndPoll(ghost reply: Response, push: bool, index: map<string, int>, listName: seq<string>,
                        connected: bool)
      requires reply.Full? && push == reply.push && (push || reply.roster.Some?)
      requires !push ==> listName == Names(Accepted(username, reply.roster.value))
      requires !push ==> index == Store(peers, Accepted(username, reply.roster.value))
      modifies this`peers, this`model, this`dataSocket, this`trace
      ensures Some(Abs()) == OnDataRead(old(Abs()), reply, connected)
    {
      trace := Then(trace, RecvData(reply));
      if !push {
        peers := index;
        model := listName;
      } else if isCalling {
        return;
      }
      trace := Then(trace, CloseData);
      dataSocket := Unconnected;
      ConnectDataSocket(connected);
    }

    method ControlDisconnected()
      requires Valid() && controlSocket == Connected
      modifies this
      ensures Valid() && run == After(old(run), ControlDisconnect)
    {
      controlSocket := Unconnected;
      trace := Then(trace, LostControl);
      run := After(run, ControlDisconnect);
    }

    method DataDisconnected()
      requires Valid() && dataSocket == Connected
      modifies this
      ensures Valid() && run == After(old(run), DataDisconnect)
    {
      dataSocket := Unconnected;
      trace := Then(trace, LostData);
      run := After(run, DataDisconnect);
    }

    /** The id looked up is the displayed peer's latest, 0 if no data roster has named it. */
    method PeerDoubleClicked(row: nat) returns (peerId: int)
      requires Valid() && row < |model|
      modifies this
      ensures Valid() && run == After(old(run), DoubleClick(row))
      ensures Abs() == OnDoubleClick(old(Abs()), row)
      ensures var log := DataLog(username, old(run));
              peerId == if LastId(log, old(model)[row]).Some? then LastId(log, old(model)[row]).value else 0
    {
      var name := model[row];
      IndexAgreesWithLog(garbage, run, name);
      if name !in peers {
        peers := peers[name := 0];
      }
      peerId := peers[name];
      isCalling := true;
      run := After(run, DoubleClick(row));
    }
  }

  /**
   The two read slots on one text, in two dialogs of the same user: unless the body starts with a
   brace they stop together or end up showing the same list; the control slot leaves the index as it
   was, the data slot adds exactly the shown names.
   */
  method SameTextBothSlots(a: Dialog, b: Dialog, text: string, c: bool, d: bool) returns (okControl: bool, okData: bool)
    requires a != b && a.Valid() && b.Valid() && a.username == b.username
    requires a.controlSocket == Connected && b.dataSocket == Connected
    requires |Parts(text)| >= 2 ==> !("{" <= Parts(text)[1])
    modifies a, b
    ensures okControl == okData
    ensures okControl ==> a.Valid() && b.Valid() && a.model == b.model && a.peers == old(a.peers)
    ensures okData ==> b.peers.Keys == old(b.peers).Keys + set name | name in b.model
  {
    ghost var s, t, r := a.Abs(), b.Abs(), Decode(text);
    okControl := a.ControlReadyRead(text, c);
    okData := b.DataReadyRead(text, d);
    SameListOfReplies(s, t, r, c, d);
  }

  lemma SameListOfReplies(s: State, t: State, r: Response, c: bool, d: bool)
    requires (r.Full? ==> !r.push) && s.username == t.username
    ensures OnControlRead(s, r, c).Some? <==> OnDataRead(t, r, d).Some?
    ensures OnControlRead(s, r, c).Some? ==>
              var a, b := OnControlRead(s, r, c).value, OnDataRead(t, r, d).value;
              && a.shown == b.shown && a.peers == s.peers
              && b.peers.Keys == t.peers.Keys + set name | name in b.shown
  {
    if r.Full? && r.roster.Some? {
      ControlReadFrame(s, r, c);
      DataReadFrame(t, r, d);
      IndexAfter(t.peers, Accepted(t.username, r.roster.value));
    }
  }
}
