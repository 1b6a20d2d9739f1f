/**
 The call widget: one-shot offer start-up with every library failure as an input, the ICE text it
 accumulates, and the candidates it hands to the peer connection.  `None` is a process stopped by a
 null peer connection or media stream, or an event that cannot occur.
 */
module Widget {
  import opened Options
  import opened Text
  import opened Ice
  import opened IceText
  import opened IceObserver

  datatype Deed =
    | FactoryMade
    | PeerMade
    | StreamAdded
    | OfferRequested
    | LocalDescription(text: string)
    | RemoteDescription(text: string)
    | CandidateAdded(c: Candidate)

  datatype Diary = Blank | Entry(before: Diary, last: Deed)

  /** `awaited` counts offer observers that have not signalled yet; each signals at most once. */
  datatype State = State(
    factory: bool, peer: bool, awaited: nat,
    ownIce: string, offerText: string,
    diary: Diary)

  /** What the library answers during one start: each `false` is a failure. */
  datatype Replies = Replies(
    factory: bool, peer: bool, noSenders: bool, video: bool, stream: bool, added: bool)

  const INITIAL := State(false, false, 0, "", "", Blank)

  function Note(s: State, d: Deed): State
  {
    s.(diary := Entry(s.diary, d))
  }

  function OnStart(s: State, r: Replies): Option<State>
  {
    if s.factory || !r.factory then Some(s)
    else
      var s1 := Note(s, FactoryMade).(factory := true);
      if !r.peer then None
      else
        var s2 := Note(s1, PeerMade).(peer := true);
        if !r.noSenders || !r.video then Some(s2)
        else if !r.stream then None
        else if !r.added then Some(s2)
        else Some(Note(Note(s2, StreamAdded), OfferRequested).(awaited := s.awaited + 1))
  }

  function OnLocalSdp(s: State, text: string): State
    requires 0 < s.awaited
  {
    Note(s, LocalDescription(text)).(offerText := text, awaited := s.awaited - 1)
  }

  function OnAnswer(s: State, text: string): Option<State>
  {
    if s.peer then Some(Note(s, RemoteDescription(text))) else None
  }

  function OnLocalIce(s: State, signal: string): State
  {
    s.(ownIce := s.ownIce + (signal + "\n"))
  }

  function NoteAll(d: Diary, cs: seq<Candidate>): Diary
  {
    if cs == [] then d else Entry(NoteAll(d, cs[..|cs| - 1]), CandidateAdded(cs[|cs| - 1]))
  }

  /** Candidates the library can parse, in order. */
  function Parsed(parses: Candidate -> bool, cs: seq<Candidate>): seq<Candidate>
  {
    if cs == [] then []
    else
      var n := |cs| - 1;
      Parsed(parses, cs[..n]) + if parses(cs[n]) then [cs[n]] else []
  }

  /** Each parsed candidate is added through the peer connection, which must not be null. */
  function OnRemoteIce(s: State, parsed: seq<Candidate>): Option<State>
  {
    if parsed != [] && !s.peer then None else Some(s.(diary := NoteAll(s.diary, parsed)))
  }

  /* ---------- runs ---------- */

  datatype Event =
    | StartClick(replies: Replies)
    | SdpSignal(text: string)
    | AnswerClick(text: string)
    | IceSignal(text: string)
    | RemoteIceClick(text: string, parses: Candidate -> bool)

  /** Observers exist only once the peer connection does; an offer observer signals at most once. */
  predicate Enabled(s: State, e: Event)
  {
    match e
    case SdpSignal(_) => 0 < s.awaited
    case IceSignal(_) => s.peer
    case _ => true
  }

  function Step(s: State, e: Event): Option<State>
    requires Enabled(s, e)
  {
    match e
    case StartClick(r) => OnStart(s, r)
    case SdpSignal(t) => Some(OnLocalSdp(s, t))
    case AnswerClick(t) => OnAnswer(s, t)
    case IceSignal(t) => Some(OnLocalIce(s, t))
    case RemoteIceClick(text, parses) => OnRemoteIce(s, Parsed(parses, Decode(text)))
  }

  datatype Run = Fresh | After(past: Run, event: Event)

  function Reach(run: Run): Option<State>
  {
    match run
    case Fresh => Some(INITIAL)
    case After(past, e) =>
      var before := Reach(past);
      if before.Some? && Enabled(before.value, e) then Step(before.value, e) else None
  }

  /* ---------- at most one offer ---------- */

  function Factories(d: Diary): nat
  {
    if d.Blank? then 0 else Factories(d.before) + if d.last.FactoryMade? then 1 else 0
  }

  function Peers(d: Diary): nat
  {
    if d.Blank? then 0 else Peers(d.before) + if d.last.PeerMade? then 1 else 0
  }

  function Offers(d: Diary): nat
  {
    if d.Blank? then 0 else Offers(d.before) + if d.last.OfferRequested? then 1 else 0
  }

  /** Streams added. */
  function Streams(d: Diary): nat
  {
    if d.Blank? then 0 else Streams(d.before) + if d.last.StreamAdded? then 1 else 0
  }

  function LocalDescriptions(d: Diary): nat
  {
    if d.Blank? then 0 else LocalDescriptions(d.before) + if d.last.LocalDescription? then 1 else 0
  }

  /** Every offer comes straight after a successful stream add. */
  ghost predicate OffersFollowStreams(d: Diary)
  {
    d.Blank? ||
    (OffersFollowStreams(d.before) && (d.last.OfferRequested? ==> d.before.Entry? && d.before.last.StreamAdded?))
  }

  function AddedCandidates(d: Diary): seq<Candidate>
  {
    if d.Blank? then []
    else AddedCandidates(d.before) + if d.last.CandidateAdded? then [d.last.c] else []
  }

  /** The library's answers to the first start for which it made a factory. */
  function FirstStart(run: Run): Option<Replies>
  {
    match run
    case Fresh => None
    case After(past, e) => NextStart(FirstStart(past), e)
  }

  predicate Smooth(r: Replies)
  {
    r.factory && r.peer && r.noSenders && r.video && r.stream && r.added
  }

  function Count(b: bool): nat { if b then 1 else 0 }

  ghost predicate OfferInv(s: State, first: Option<Replies>)
  {
    && s.factory == s.peer == first.Some?
    && Factories(s.diary) == Peers(s.diary) == Count(first.Some?)
    && Streams(s.diary) == Offers(s.diary) == Count(first.Some? && Smooth(first.value))
    && LocalDescriptions(s.diary) + s.awaited == Offers(s.diary)
    && OffersFollowStreams(s.diary)
  }

  lemma {:induction false} NoteAllEffect(d: Diary, cs: seq<Candidate>)
    ensures var d' := NoteAll(d, cs);
            && Factories(d') == Factories(d) && Peers(d') == Peers(d) && Offers(d') == Offers(d)
            && Streams(d') == Streams(d) && LocalDescriptions(d') == LocalDescriptions(d)
            && (OffersFollowStreams(d') <==> OffersFollowStreams(d))
            && AddedCandidates(d') == AddedCandidates(d) + cs
    decreases |cs|
  {
    if cs != [] {
      NoteAllEffect(d, cs[..|cs| - 1]);
      assert cs == cs[..|cs| - 1] + [cs[|cs| - 1]];
    }
  }

  lemma StartEffect(s: State, r: Replies)
    requires !s.factory && r.factory && OnStart(s, r).Some? && OffersFollowStreams(s.diary)
    ensures var d, d' := s.diary, OnStart(s, r).value.diary;
            && Factories(d') == Factories(d) + 1 && Peers(d') == Peers(d) + 1
            && Offers(d') == Offers(d) + Count(Smooth(r)) && Streams(d') == Streams(d) + Count(Smooth(r))
            && LocalDescriptions(d') == LocalDescriptions(d)
            && OffersFollowStreams(d') && AddedCandidates(d') == AddedCandidates(d)
  {
    var d2 := Entry(Entry(s.diary, FactoryMade), PeerMade);
    assert Factories(d2) == Factories(s.diary) + 1 && Peers(d2) == Peers(s.diary) + 1;
    assert Offers(d2) == Offers(s.diary) && Streams(d2) == Streams(s.diary);
    assert LocalDescriptions(d2) == LocalDescriptions(s.diary);
    assert OffersFollowStreams(d2) && AddedCandidates(d2) == AddedCandidates(s.diary);
  }

  lemma {:induction false} OfferInvariant(run: Run)
    requires Reach(run).Some?
    ensures OfferInv(Reach(run).value, FirstStart(run))
    decreases run
  {
    if run.After? {
      OfferInvariant(run.past);
      OfferStep(Reach(run.past).value, FirstStart(run.past), run.event);
    }
  }

  /** The replies that count, once this event is done. */
  function NextStart(first: Option<Replies>, e: Event): Option<Replies>
  {
    if first.None? && e.StartClick? && e.replies.factory then Some(e.replies) else first
  }

  lemma OfferStep(s: State, first: Option<Replies>, e: Event)
    requires OfferInv(s, first) && Enabled(s, e) && Step(s, e).Some?
    ensures OfferInv(Step(s, e).value, NextStart(first, e))
  {
    match e
    case StartClick(r) => if !s.factory && r.factory { StartEffect(s, r); }
    case RemoteIceClick(text, parses) => RemoteStep(s, first, Parsed(parses, Decode(text)));
    case _ =>
  }

  lemma RemoteStep(s: State, first: Option<Replies>, cs: seq<Candidate>)
    requires OfferInv(s, first) && OnRemoteIce(s, cs).Some?
    ensures OfferInv(OnRemoteIce(s, cs).value, first)
  {
    NoteAllEffect(s.diary, cs);
  }

  /**
   Over every run with arbitrary library failures there is at most one factory, one peer connection
   and one offer; the offer is requested exactly when everything went well in the first start that
   obtained a factory, so a later click never repairs a failed one; and no more local
   descriptions are set than offers made.
   */
  lemma SingleOffer(run: Run)
    requires Reach(run).Some?
    ensures var d := Reach(run).value.diary;
            && Factories(d) <= 1 && Peers(d) <= 1 && Offers(d) <= 1
            && (Offers(d) == 1 <==> FirstStart(run).Some? && Smooth(FirstStart(run).value))
            && Streams(d) == Offers(d) && LocalDescriptions(d) <= Offers(d)
            && OffersFollowStreams(d)
  {
    OfferInvariant(run);
  }

  /** A start stops the process exactly where it calls through a null peer connection or stream. */
  lemma StartStops(s: State, r: Replies)
    ensures OnStart(s, r).None? <==>
            !s.factory && r.factory && (!r.peer || (r.noSenders && r.video && !r.stream))
  {
  }

  /* ---------- descriptions ---------- */

  /** The offers signalled to the widget, in order. */
  function OfferTexts(run: Run): seq<string>
  {
    match run
    case Fresh => []
    case After(past, e) => OfferTexts(past) + if e.SdpSignal? then [e.text] else []
  }

  /** The answers clicked, in order. */
  function AnswerTexts(run: Run): seq<string>
  {
    match run
    case Fresh => []
    case After(past, e) => AnswerTexts(past) + if e.AnswerClick? then [e.text] else []
  }

  function LocalTexts(d: Diary): seq<string>
  {
    if d.Blank? then [] else LocalTexts(d.before) + if d.last.LocalDescription? then [d.last.text] else []
  }

  function RemoteTexts(d: Diary): seq<string>
  {
    if d.Blank? then [] else RemoteTexts(d.before) + if d.last.RemoteDescription? then [d.last.text] else []
  }

  /** Neither kind of description is touched. */
  ghost predicate SameTexts(d: Diary, d': Diary)
  {
    LocalTexts(d') == LocalTexts(d) && RemoteTexts(d') == RemoteTexts(d)
  }

  lemma {:induction false} NoteAllTexts(d: Diary, cs: seq<Candidate>)
    ensures SameTexts(d, NoteAll(d, cs))
    decreases |cs|
  {
    if cs != [] { NoteAllTexts(d, cs[..|cs| - 1]); }
  }

  lemma StartTexts(s: State, r: Replies)
    requires OnStart(s, r).Some?
    ensures SameTexts(s.diary, OnStart(s, r).value.diary) && OnStart(s, r).value.offerText == s.offerText
  {
    var d2 := Entry(Entry(s.diary, FactoryMade), PeerMade);
    assert SameTexts(s.diary, d2);
    assert SameTexts(d2, Entry(Entry(d2, StreamAdded), OfferRequested)) by {
      assert SameTexts(d2, Entry(d2, StreamAdded));
    }
  }

  /**
   Over every run the local descriptions set are exactly the offers signalled and the remote ones
   exactly the answers clicked, in order; the offer box shows the last offer, or nothing.
   */
  lemma {:induction false} DescriptionsConserved(run: Run)
    requires Reach(run).Some?
    ensures var s, offers := Reach(run).value, OfferTexts(run);
            && LocalTexts(s.diary) == offers
            && RemoteTexts(s.diary) == AnswerTexts(run)
            && s.offerText == if offers == [] then "" else offers[|offers| - 1]
    decreases run
  {
    if run.After? {
      DescriptionsConserved(run.past);
      var s := Reach(run.past).value;
      match run.event
      case StartClick(r) => StartTexts(s, r);
      case RemoteIceClick(text, parses) => NoteAllTexts(s.diary, Parsed(parses, Decode(text)));
      case _ =>
    }
  }

  /* ---------- ICE ---------- */

  /** The signals of the connection observer, in order. */
  function IceSignals(run: Run): seq<string>
  {
    match run
    case Fresh => []
    case After(past, e) => IceSignals(past) + if e.IceSignal? then [e.text] else []
  }

  /** The text box holds every signal, one line each, in order. */
  lemma {:induction false} OwnIceAccumulates(run: Run)
    requires Reach(run).Some?
    ensures Reach(run).value.ownIce == Unlines(IceSignals(run))
    decreases run
  {
    if run.After? {
      OwnIceAccumulates(run.past);
      if run.event.IceSignal? {
        UnlinesSnoc(IceSignals(run.past), run.event.text);
      } else {
        assert IceSignals(run) == IceSignals(run.past);
      }
    }
  }

  /** What accumulated text decodes to: the candidates sent, exactly when all of them survive. */
  lemma {:induction false} OwnIceDecodes(run: Run, cs: seq<Candidate>)
    requires Reach(run).Some? && IceSignals(run) == EmitAll(cs)
    ensures Decode(Reach(run).value.ownIce) == StrippedAll(cs) <==>
            forall i :: 0 <= i < |cs| ==> Survives(cs[i])
  {
    OwnIceAccumulates(run);
    ObserverRoundTrip(cs);
  }

  /** Pasting `text` into a widget: what it adds, and when it stops. */
  lemma Pasted(s: State, text: string, parses: Candidate -> bool)
    ensures var o := Step(s, RemoteIceClick(text, parses));
            var cs := Parsed(parses, Decode(text));
            && (o.Some? <==> s.peer || cs == [])
            && (o.Some? ==> AddedCandidates(o.value.diary) == AddedCandidates(s.diary) + cs)
  {
    NoteAllEffect(s.diary, Parsed(parses, Decode(text)));
  }

  /**
   From widget to widget.  `a` is the sender's run, whose observer signalled `cs`; `b` is the
   receiver's run, with a peer connection.  Pasting the sender's text into the receiver adds, after
   what was there, what the text of each candidate stands for, as far as the library can parse it;
   for a clean candidate that is none or one, for media line 0, with what fitted of its description.
   */
  lemma {:induction false} IceReachesPeer(a: Run, b: Run, cs: seq<Candidate>, parses: Candidate -> bool)
    requires Reach(a).Some? && IceSignals(a) == EmitAll(cs)
    requires Reach(b).Some? && Reach(b).value.peer
    ensures var o := Reach(After(b, RemoteIceClick(Reach(a).value.ownIce, parses)));
            && o.Some?
            && AddedCandidates(o.value.diary)
               == AddedCandidates(Reach(b).value.diary) + Parsed(parses, Flat(DecodedAll(cs)))
    ensures forall i :: 0 <= i < |cs| && CleanPrinted(cs[i]) ==> DecodedAll(cs)[i] == Arrives(cs[i])
  {
    OwnIceAccumulates(a);
    ListArrives(cs);
    Pasted(Reach(b).value, Reach(a).value.ownIce, parses);
  }

  /** With a library that parses everything the same list arrives exactly when all of it survives. */
  lemma {:induction false} IceReachesPeerExactly(a: Run, b: Run, cs: seq<Candidate>, parses: Candidate -> bool)
    requires Reach(a).Some? && IceSignals(a) == EmitAll(cs)
    requires Reach(b).Some? && Reach(b).value.peer
    requires forall c :: parses(c)
    ensures var o := Reach(After(b, RemoteIceClick(Reach(a).value.ownIce, parses)));
            && o.Some?
            && (AddedCandidates(o.value.diary) == AddedCandidates(Reach(b).value.diary) + StrippedAll(cs) <==>
                forall i :: 0 <= i < |cs| ==> Survives(cs[i]))
  {
    OwnIceDecodes(a, cs);
    var text := Reach(a).value.ownIce;
    Pasted(Reach(b).value, text, parses);
    ParsedAll(parses, Decode(text));
    SameTail(AddedCandidates(Reach(b).value.diary), Decode(text), StrippedAll(cs));
  }

  /** A candidate that cannot be parsed is skipped, and the others keep their order. */
  lemma {:induction false} ParsedAppend(parses: Candidate -> bool, xs: seq<Candidate>, ys: seq<Candidate>, c: Candidate)
    ensures Parsed(parses, xs + ys) == Parsed(parses, xs) + Parsed(parses, ys)
    ensures Parsed(parses, [c]) == if parses(c) then [c] else []
    decreases |ys|
  {
    assert [c][..0] == [];
    if ys == [] {
      assert xs + ys == xs;
    } else {
      var n := |ys| - 1;
      ParsedAppend(parses, xs, ys[..n], c);
      assert (xs + ys)[..|xs + ys| - 1] == xs + ys[..n];
    }
  }

  lemma {:induction false} ParsedAll(parses: Candidate -> bool, cs: seq<Candidate>)
    requires forall c :: parses(c)
    ensures Parsed(parses, cs) == cs
    decreases |cs|
  {
    if cs != [] {
      ParsedAll(parses, cs[..|cs| - 1]);
      assert cs == cs[..|cs| - 1] + [cs[|cs| - 1]];
    }
  }

  lemma SameTail(x: seq<Candidate>, y: seq<Candidate>, z: seq<Candidate>)
    ensures x + y == x + z <==> y == z
  {
    assert (x + y)[|x|..] == y && (x + z)[|x|..] == z;
  }

  /** The parsed candidates of every text pasted during the run, in order. */
  function RemoteParsed(run: Run): seq<Candidate>
  {
    match run
    case Fresh => []
    case After(past, e) =>
      RemoteParsed(past) + if e.RemoteIceClick? then Parsed(e.parses, Decode(e.text)) else []
  }

  /** Over a whole run the peer connection is given exactly the parsed candidates of the pasted texts. */
  lemma {:induction false} CandidatesConserved(run: Run)
    requires Reach(run).Some?
    ensures AddedCandidates(Reach(run).value.diary) == RemoteParsed(run)
    decreases run
  {
    if run.After? {
      CandidatesConserved(run.past);
      OfferInvariant(run.past);
      var s := Reach(run.past).value;
      match run.event
      case StartClick(r) => if !s.factory && r.factory { StartEffect(s, r); }
      case RemoteIceClick(text, parses) => NoteAllEffect(s.diary, Parsed(parses, Decode(text)));
      case _ =>
    }
  }
}
