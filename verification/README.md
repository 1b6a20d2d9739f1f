# Video chat: signalling client and ICE text, modelled and proved in Dafny

The project models the application's own logic:

- the **signalling client** (`video_chat.cpp`): sign-in, then a repeated hanging `GET /wait` over
  HTTP/1.0 (RFC 1945), the peer roster in each response, the displayed list and the `peers` index;
- the **call widget** (`mywidget.cpp`): one-shot offer start-up, the accumulated local ICE text and
  the parser for pasted remote ICE text;
- the **ICE printer** (`peer_connection/myconnectionobserver.cpp`) whose lines that parser reads.

Verify with `dafny verify dfyconfig.toml`.

## How it is organised

| file | content |
|---|---|
| `Text.dfy` | Qt `indexOf`, `split` and `replace(x, "")`: the loops, recursive specifications, and laws that need no recursion to state |
| `Decimal.dfy`, `NumberText.dfy` | printing and the readers `toInt`, `toUShort`, `atoi`; what they make of any text, character by character |
| `Protocol.dfy` | request texts, the header/body cut, the `Pragma` id |
| `Roster.dfy`, `Response.dfy` | roster lines, the loops of both read handlers, and the printed-roster round trip |
| `Signalling.dfy` | the client as a state machine over slot invocations, with a trace of what it does |
| `SignallingInvariants.dfy` | what every slot keeps |
| `SignallingRuns.dfy` | theorems about whole runs |
| `VideoChat.dfy` | the dialog object; every slot takes the step of the state machine, so the object is always in a reachable state |
| `Ice.dfy`, `IceText.dfy`, `IceObserver.dfy` | the remote-ICE parser, the quoted layout, the real printer |
| `Widget.dfy`, `MyWidget.dfy` | the widget's state machine with its run theorems, and the widget object |

Modelling decisions:

- An event is one slot invocation on one complete response. The result of `waitForConnected` is an
  input, and the `connected` slot runs inside that call.
- A list index out of range, or a call through a null peer connection or media stream, stops the
  process: the step has no successor state and the method returns `ok == false`.
- `my_id` and `port` start with arbitrary contents, as the constructor leaves them.
- The laws over lines hold for any reading of one line. The loops split every line, part and number
  with the split, removal and digit loops; their ghost parameter only names the reading they compute.

Findings, each stated exactly by a member below:

- The observer prints the media line index without quotes. The parser then reads `:0`, `:1`, … with
  `atoi`, which is 0, so a candidate with no newline in its texts arrives with index 0
  (`IceObserver.PrintedIndexIsZero`, `IceObserver.IndexLost`, `IceObserver.ObserverRoundTrip`). A
  newline in the mid or the description starts a line of its own, and such a line can bring any
  index (`IceObserver.OtherIndexComesLater`, `IceObserver.IndexFromMid`).
- An empty roster, an empty header, or a header block ended by a CRLF of its own before the blank
  line, makes both read handlers index out of range, and for a printed roster under a header with
  no blank line inside nothing else does (`SignallingRuns.RosterReachesList`,
  `SignallingRuns.RosterReachesIndex`, `Response.PlainHeader`). Under a header with a blank line
  inside, the handlers read its second part and never look at the roster
  (`Response.RosterRoundTrip`).
- One removal pass can leave an escape behind: exactly when the text holds an escape with whole
  escapes, at least one in all, written between its characters (`Ice.EscapeLeftBehind`,
  `Ice.EscapeInEscape`).
- A roster whose first name starts with a brace is taken for a push (`Response.RosterTakenForPush`).
- The calling flag is never cleared, and a push received while it is set ends polling on that
  connection (`SignallingRuns.CallingSinceDoubleClick`, `SignallingRuns.PollingResumes`,
  `SignallingRuns.PollingStalls`, `SignallingRuns.StallingRun`).
- Once the control socket is down and the data socket is not connected, nothing is
  connected, sent or received any more (`SignallingRuns.SessionOver`).
- A user name with a space in it does not come through in the sign-in request
  (`Protocol.SignInOfRequest`, `SignallingRuns.SignInReadsBack`).
- A start that obtains a factory but fails later can never be repeated (`Widget.SingleOffer`).

## Model

| member | source | states |
|---|---|---|
| Text.SplitLoop | video_chat.cpp:88-98 | Qt's split loop, empty parts kept or skipped, computes the recursive split |
| Text.SplitCharacterised | video_chat.cpp:88-98 | a list of parts is the split of a text if and only if it joins back to the text and cuts at leftmost separators only |
| Text.SplitAppend | video_chat.cpp:135-135 | splitting distributes over a written separator if and only if the last part before it is clean, which a bordered separator such as CRLFCRLF can violate |
| Text.SplitAppendUnbordered | mywidget.cpp:105-114 | with an unbordered separator (newline, comma, quote, the escape) splitting distributes with no side condition |
| Text.SplitLength | video_chat.cpp:88-88 | parts and separators together account for every character |
| Text.SplitCutsAll | mywidget.cpp:125-125 | with an unbordered separator the left-to-right pass cuts at every position where the separator occurs |
| Text.RemoveLoop | mywidget.cpp:125-125 | the in-place replace loop deletes exactly the separators one left-to-right pass finds |
| Text.RemoveLeaves | mywidget.cpp:125-125 | for every unbordered separator, one pass leaves an occurrence if and only if the text holds the separator with whole copies of it, at least one, written between its characters |
| Decimal.ReadInt | video_chat.cpp:143-144 | the trimming and digit loops compute toInt, 0 for malformed or out-of-range text |
| Decimal.ReadUShort | video_chat.cpp:65-65 | the same loops compute toUShort, 0 for malformed, negative or out-of-range text |
| Decimal.ReadAtoi | mywidget.cpp:121-121 | skipping white space and scanning digits computes atoi |
| Decimal.ToIntOfPrint | video_chat.cpp:92-125 | printing then toInt is the identity on 32-bit values and 0 outside |
| Decimal.ToIntPadded | video_chat.cpp:143-144 | white space around a printed number, such as a CR left before the line feed, does not change what toInt reads |
| Decimal.ToUShortOfPrint | video_chat.cpp:65-65 | a printed port reads as itself up to 65535 and as 0 above |
| Decimal.AtoiOfPrint | mywidget.cpp:121-121 | printing then atoi is the identity on 32-bit values; any other is clamped to 64 bits and cut to 32 |
| NumberText.ToIntExactly | video_chat.cpp:92-144 | toInt gives a number other than 0 if and only if the text is white space, an optional sign, digits and white space, and the number is that value and fits 32 bits |
| NumberText.ToUShortExactly | video_chat.cpp:65-65 | toUShort gives a number other than 0 if and only if the text is white space, an optional plus, digits and white space, and the number is that value in 1..65535 |
| NumberText.Malformed | video_chat.cpp:65-144 | both readers give 0 for blank text and for any text with another character, and toUShort for any text with a minus sign |
| NumberText.NumberRead | video_chat.cpp:65-144 | a signed number in white space is read as its value in range and as 0 outside, and by toUShort only without a minus |
| NumberText.PortRead | video_chat.cpp:65-68 | the port is nonzero exactly for the texts of 1..65535 |
| NumberText.AtoiReads | mywidget.cpp:121-121 | atoi reads leading white space, a sign and the digits that follow, stops at anything else, and gives 0 without digits |
| NumberText.ValueAppend | video_chat.cpp:92-144 | digits are positional with base ten, the first ones the most significant |
| NumberText.PrintOfValue | video_chat.cpp:125-125 | printing gives back the digits a number was read from, without zeros in front |
| Protocol.HeaderBodySplit | video_chat.cpp:88-88 | for non-empty header and body the cut gives exactly the two if and only if the header holds no blank line and does not end in CRLF and the body holds no blank line |
| Protocol.PeerIdOfDigits | video_chat.cpp:90-92 | for every header whose first `Pragma: ` with a digit behind it stands after any text: the id is the value of the digits there, 0 if it does not fit |
| Protocol.PeerIdOfNone | video_chat.cpp:90-92 | a header in which no `Pragma: ` stands before a digit gives 0 |
| Protocol.PeerIdOfHeader | video_chat.cpp:90-92 | the first `Pragma: ` line carrying an id yields that id, whatever follows it |
| Protocol.ReadPeerId | video_chat.cpp:90-92 | the search loop, the capture and the digit loop compute the id of the first Pragma match, 0 without one |
| Protocol.SignInOfRequest | video_chat.cpp:77-77 | a server reading `GET /sign_in?`, a value and ` HTTP/1.0` with a blank line gets the user name from the sign-in if and only if it holds no space; the request ends in CRLFCRLF |
| Protocol.ReadWaitOfRequest | video_chat.cpp:125-125 | a server reading `GET /wait?peer_id=`, a value and ` HTTP/1.0` with a blank line gets the id back; the request ends in CRLFCRLF |
| Roster.ListNames | video_chat.cpp:97-103 | the control loop, splitting each line and reading its status, lists exactly the accepted names in order, and stops exactly when some line has fewer than three fields |
| Roster.ListPeers | video_chat.cpp:140-149 | the data loop, splitting each line and reading id and status, lists the same names and stores each accepted id in order |
| Roster.FieldsRead | video_chat.cpp:98-144 | of a line of non-empty fields the first three count, further ones change nothing, and with fewer the handlers stop |
| Roster.EmptyFieldIgnored | video_chat.cpp:98-98 | an empty field, wherever it stands, changes nothing |
| Roster.AcceptedMembers | video_chat.cpp:145-148 | a line is accepted if and only if it names someone else with a nonzero status |
| Roster.AcceptedAppend | video_chat.cpp:97-148 | acceptance keeps order and repetitions |
| Roster.LastIdIsLast | video_chat.cpp:146-146 | the search from the end of a list finds the last entry with the name |
| Roster.StoreIsLastId | video_chat.cpp:146-146 | the index after any list of writes equals a search from the end of that list, falling back to the old index |
| Response.ReadControl | video_chat.cpp:86-103 | the reading part of the control handler gives the header's id and the accepted names, or stops exactly on an unreadable response |
| Response.ReadData | video_chat.cpp:132-150 | the reading part of the data handler tells pushes from rosters and updates index and list for rosters only |
| Response.ReadBothWays | video_chat.cpp:94-151 | run on one text whose body does not start with a brace, both handlers' loops stop together or give the same list, and only the data loop changes the index, by exactly the listed names |
| Response.HeaderCut | video_chat.cpp:88-88 | for every header and body: the parts of a response are those of the header, less a CRLF at its end, then those of the body, with that CRLF in front |
| Response.PlainHeader | video_chat.cpp:88-92 | a header without a blank line inside is one part, and is well built if and only if it is neither empty nor ended by CRLF |
| Response.BlankLinesIgnored | video_chat.cpp:88-88 | for every header and every body, blank lines before the header and further ones after it change nothing |
| Response.RosterRoundTrip | video_chat.cpp:88-103 | for any text as header, any blank lines around it and lines ended by LF, CRLF or other white space before the LF: a header of two or more parts decides the response alone; otherwise the roster is read back in full if and only if it has an entry and the header is one part not ended by CRLF, and in every other case both handlers stop |
| Response.RosterTakenForPush | video_chat.cpp:136-136 | for any header, which roster the handlers get, and that the data handler takes it for a push if and only if its first name, or the second part of the header if there is one, starts with a brace |
| Response.IdRoundTrip | video_chat.cpp:90-125 | an id in 0..2^31-1 in the first part of any header travels to my_id, into the next wait request, and back on the server, if and only if a second part of any kind follows |
| SignallingInvariants.TraceStep | video_chat.cpp:58-197 | every slot keeps the session, identity and polling invariants together |
| SignallingInvariants.LinkStep | video_chat.cpp:38-169 | every slot keeps one live data connection, one sign-in per control connection, one address |
| SignallingInvariants.NoSelfStep | video_chat.cpp:97-189 | every slot keeps the user out of the list and the index |
| SignallingInvariants.StepFrame | video_chat.cpp:58-197 | login data is fixed once logged in, the index changes only on data rosters and double clicks, the calling flag only on double clicks |
| SignallingRuns.OneSession | video_chat.cpp:58-72 | over every run a session is opened and local info started at most once, exactly when there is a control socket; then host and user are non-empty and the port is in 1..65535 |
| SignallingRuns.LoginFrozen | video_chat.cpp:60-66 | after login no continuation of a run changes host, port or user name |
| SignallingRuns.OneAddress | video_chat.cpp:51-164 | every connect on either socket goes to the login's host and port, the sign-in names its user, and there is at most one live data connection |
| SignallingRuns.SocketsFollowTrace | video_chat.cpp:51-179 | in every reachable state either socket is connected if and only if the trace has one live connection for it, and there are never two |
| SignallingRuns.NoSelf | video_chat.cpp:101-189 | in every reachable state the user is neither listed nor indexed |
| SignallingRuns.PollingConservation | video_chat.cpp:114-168 | one wait per data connection; each is answered, lost with its connection, or the single open one; before the first call one is open exactly while connected |
| SignallingRuns.AttemptsConserved | video_chat.cpp:51-164 | over every run there is exactly one connect attempt for the session and one on the data socket each time it was closed or is down when a control response comes, whether it succeeds or not |
| SignallingRuns.PollingStarts | video_chat.cpp:107-120 | a control response with a successful connect opens one wait where the data socket was down, and leaves a connected one alone |
| SignallingRuns.PollingResumes | video_chat.cpp:153-168 | a handled data response with a successful reconnect leaves one open wait, or none for a push during a call |
| SignallingRuns.PollingStalls | video_chat.cpp:153-156 | a connected data socket has no open wait if and only if its latest exchange was a response, which is then a push taken during a call |
| SignallingRuns.StallingRun | video_chat.cpp:153-156 | for every login, roster, clicked row and push there is a run that ends connected without an open wait: sign in, call, receive the push |
| SignallingRuns.SessionOver | video_chat.cpp:58-179 | no continuation of a run adds anything to the trace if and only if the control socket is down and the data socket is not connected |
| SignallingRuns.CallingSinceDoubleClick | video_chat.cpp:191-191 | the calling flag is set if and only if a double click has happened |
| SignallingRuns.RequestIdentity | video_chat.cpp:90-128 | every wait ever sent follows a control response and carries the id of the latest one before it |
| SignallingRuns.RequestReadsBack | video_chat.cpp:125-126 | the text of every wait ever sent reads back as that id |
| SignallingRuns.SignInReadsBack | video_chat.cpp:74-82 | the text of every sign-in ever sent reads back as the login's user name, if that holds no space |
| SignallingRuns.GarbageUnseen | video_chat.h:42-47 | the uninitialised my_id and port never influence a request, a list or the index |
| SignallingRuns.IndexAgreesWithLog | video_chat.cpp:137-189 | after every run a name is a key if and only if some data roster line accepted it or a double click looked it up, with the id of its last accepted line, else 0 |
| SignallingRuns.KeysStay | video_chat.cpp:146-189 | no continuation of a run removes a key |
| SignallingRuns.ShownNamesResolve | video_chat.cpp:105-189 | the list is that of the latest list-carrying response, and if that was a data roster every shown name resolves to the id on its last accepted line there |
| SignallingRuns.RosterReachesList | video_chat.cpp:84-105 | for any header, the control slot takes a printed roster if and only if it is well built, and then shows exactly the other, active peers in printed order; a second part of the header takes its place if there is one |
| SignallingRuns.RosterReachesIndex | video_chat.cpp:130-151 | the data slot on the same text: taken exactly in the same cases or as a push; list and index are then those of the roster, or unchanged for a push |
| SignallingRuns.PushesDoNotInterfere | video_chat.cpp:136-168 | erasing all pushes from any run gives a possible run with the same user-visible state, whether or not a call is in progress |
| VideoChat.Dialog.constructor | video_chat.cpp:3-15 | a new dialog is in the initial state with arbitrary my_id and port |
| VideoChat.Dialog.OnLoginClicked | video_chat.cpp:58-72 | takes the login step and stays in a reachable state; from a null control socket it goes ahead if and only if host and user are non-empty and the port text is a number in 1..65535 without a minus |
| VideoChat.Dialog.StartConnection | video_chat.cpp:38-56 | clears the list, makes the control socket, connects it |
| VideoChat.Dialog.ControlConnected | video_chat.cpp:74-82 | writes the sign-in request unless signing out; the server reads the user from it unless the name holds a space |
| VideoChat.Dialog.DataConnected | video_chat.cpp:123-128 | writes the wait request for my_id, which the server reads back |
| VideoChat.Dialog.ControlReadyRead | video_chat.cpp:84-121 | takes the control step on the decoded text, stopping exactly on unreadable responses |
| VideoChat.Dialog.DataReadyRead | video_chat.cpp:130-169 | takes the data step on the decoded text, stopping exactly on unreadable responses |
| VideoChat.Dialog.PeerDoubleClicked | video_chat.cpp:186-191 | the id looked up is the one on the peer's last accepted line over the whole run, else 0 |
| VideoChat.SameTextBothSlots | video_chat.cpp:84-151 | the two read slots on one text without a leading brace stop together or show the same list; the control slot leaves the index, the data slot adds exactly the shown names |
| Ice.RemainingLoop | mywidget.cpp:112-118 | the inner loop, splitting each part at quotes, collects the third piece of each part that has one, in order |
| Ice.ReadIceLine | mywidget.cpp:108-126 | one pass of the outer loop: the line yields a candidate exactly when three values remain, with the escape removed |
| Ice.DecodeHomomorphism | mywidget.cpp:105-139 | the candidates of two texts joined by a newline are those of the first, then those of the second, for all texts |
| Ice.LineYields | mywidget.cpp:115-120 | a line yields a candidate if and only if exactly three parts have at least three non-empty pieces |
| Ice.ThinPartIgnored | mywidget.cpp:112-118 | inserting or deleting a part with fewer than three pieces never changes a line's result |
| Ice.DecodedChars | mywidget.cpp:105-125 | nothing decoded holds a quote, comma, newline or a character absent from the input |
| Ice.EscapeRemoval | mywidget.cpp:125-125 | occurrences never overlap, the pass shortens the text by four for each position where the escape occurs, and leaves it unchanged if and only if there is none |
| Ice.EscapeLeftBehind | mywidget.cpp:125-125 | an escape is left after the pass if and only if the text holds an escape with whole escapes, at least one in all, written between its characters |
| Ice.EscapeInEscape | mywidget.cpp:125-125 | an input that leaves one: an escape written inside an escape |
| Ice.EscapeRemovalDistributes | mywidget.cpp:125-125 | removal distributes over a written escape whatever stands on either side |
| Text.UnlinesSnoc | mywidget.cpp:152-154 | appending a signal and a newline at the end extends the accumulated text by one line |
| IceText.QuotedRoundTrip | mywidget.cpp:105-126 | any list of candidates in the quoted layout, accumulated and parsed, comes back if and only if no description holds the escape |
| IceObserver.StripLineEnd | peer_connection/myconnectionobserver.cpp:47-53 | one CRLF, LF or CR at the end of the description is dropped, and nothing from a text that ends in neither |
| IceObserver.CStringCut | peer_connection/myconnectionobserver.cpp:57-57 | a text is printed up to its first NUL |
| IceObserver.PrintedText | peer_connection/myconnectionobserver.cpp:55-57 | for all texts the printed line, letter by letter, cut at 1023 characters |
| IceObserver.PrintedLineParsed | peer_connection/myconnectionobserver.cpp:55-57 | for every index, mid and description, newlines included: the first line of the text is read as a colon with the index followed by the values of what fits of the rest, and the later lines by themselves |
| IceObserver.PrintedIndexIsZero | peer_connection/myconnectionobserver.cpp:57-57 | for texts without a newline nothing decoded has an index other than 0 |
| IceObserver.OtherIndexComesLater | peer_connection/myconnectionobserver.cpp:57-57 | for all texts, a candidate with another index is decoded if and only if a later line of the printed text yields it |
| IceObserver.IndexFromMid | mywidget.cpp:105-126 | for every 32-bit index, clean mid and clean escape-free description there is a mid with a newline that makes exactly that candidate arrive, whatever the printed index, if the text fits |
| IceObserver.IndexFiveArrives | mywidget.cpp:105-126 | an input: media line 0 is printed and a candidate for media line 5 arrives |
| IceObserver.CleanLineParsed | peer_connection/myconnectionobserver.cpp:55-57 | for texts without quote, comma or newline, exactly what arrives, including the cut at 1023 characters |
| IceObserver.IndexLost | peer_connection/myconnectionobserver.cpp:57-57 | a candidate that fits arrives whole but with index 0, whatever its index was |
| IceObserver.ListArrives | peer_connection/myconnectionobserver.cpp:38-60 | any list of candidates printed and accumulated decodes to what each one's text stands for, in order, and for each clean one that is none, or one with index 0 and what fitted of the description |
| IceObserver.ObserverRoundTrip | peer_connection/myconnectionobserver.cpp:38-60 | any list of candidates printed, accumulated and parsed comes back if and only if each has index 0, a non-empty mid, clean escape-free texts, and fits the buffer |
| Widget.SingleOffer | mywidget.cpp:27-92 | over every run with any library failures: at most one factory, peer connection and offer, the offer made if and only if the first start with a factory went well throughout, right after the one stream added, and no more local descriptions than offers |
| Widget.StartStops | mywidget.cpp:27-92 | a start stops the process if and only if it gets a factory and then a null peer connection, or a null stream where one is made |
| Widget.DescriptionsConserved | mywidget.cpp:94-148 | over every run the local descriptions set are exactly the offers signalled, the remote ones exactly the answers clicked, in order, and the offer box shows the last offer or nothing |
| Widget.OwnIceAccumulates | mywidget.cpp:150-155 | the text box holds every signal of the run, one line each, in order |
| Widget.OwnIceDecodes | mywidget.cpp:102-155 | over every run the accumulated text decodes to the candidates sent if and only if each of them survives printing |
| Widget.IceReachesPeer | mywidget.cpp:102-155 | over any two runs and any candidates, pasting one widget's text into another with a peer connection adds, in order, what each candidate's text stands for as far as the library can parse it; for a clean candidate that is none, or one with index 0 and what fitted of its description |
| Widget.IceReachesPeerExactly | mywidget.cpp:102-155 | with a library that parses everything, exactly the candidates sent arrive if and only if each of them survives printing |
| Widget.ParsedAppend | mywidget.cpp:131-137 | a candidate the library cannot parse is skipped and the others keep their order |
| Widget.CandidatesConserved | mywidget.cpp:105-138 | over every run the peer connection is given exactly the parsed candidates of all pasted texts, once and in order |
| MyWidget.CallWidget.OnStartClicked | mywidget.cpp:27-92 | takes the start step for any library replies, stopping exactly on a null peer connection or media stream |
| MyWidget.CallWidget.OnLocalSDPInfo | mywidget.cpp:142-148 | shows the offer and sets the local description |
| MyWidget.CallWidget.OnAnswerClicked | mywidget.cpp:94-100 | sets the remote description, stopping exactly when there is no peer connection |
| MyWidget.CallWidget.OnLocalIceCandidate | mywidget.cpp:150-155 | appends the signal and a newline |
| MyWidget.CallWidget.OnRemoteICEClicked | mywidget.cpp:102-140 | adds exactly the decoded candidates the library can parse, stopping exactly when there is one and no peer connection |

## Left out

- Slots re-entered from inside `waitForBytesWritten`, and a response split over several `readyRead` signals: an event is one complete response, handled to the end.
- VideoChat.Dialog.ControlReadyRead: says nothing about the fields when it stops, because the process is then gone.
- VideoChat.Dialog.DataReadyRead: says nothing about the fields when it stops, because the process is then gone.
- Decimal.AtoiOfPrint: out-of-range `atoi` is undefined in C; the model cuts a saturated 64-bit value, as common C libraries do.
- The destructor and its sign-out request: teardown only.
- The unfinished POST header of the double click, the JSON document of a push, and `StreamVideo`: computed and dropped by the source.
- `backend.cpp`: `initLocalInfo` is one action of the trace; the WebRTC calls inside it are not modelled.
- What the library makes of a null track, and the ignored results of `AddTrack`: the widget passes tracks on without looking at them.
- Text encodings: characters are ASCII, and text boxes return what was put in.
- The rest of `peer_connection/`, the capture and rendering code, and the vendored libraries: logging, library calls or third-party code.
