/** The widget object: its slots, proved to take the steps of module Widget. */
module MyWidget {
  import opened Options
  import opened Text
  import opened Ice
  import opened Widget

  lemma ParsedSnoc(parses: Candidate -> bool, cs: seq<Candidate>, c: Candidate)
    ensures Parsed(parses, cs + [c]) == if parses(c) then Parsed(parses, cs) + [c] else Parsed(parses, cs)
  {
    assert (cs + [c])[..|cs|] == cs;
  }

  lemma NoteAllSnoc(d: Diary, cs: seq<Candidate>, c: Candidate)
    ensures NoteAll(d, cs + [c]) == Entry(NoteAll(d, cs), CandidateAdded(c))
  {
    assert (cs + [c])[..|cs|] == cs;
  }

  /** A line gives none or one. */
  ghost predicate AtMostOne(read: LineReading)
  {
    forall l :: |read(l)| <= 1
  }

  lemma LinesGiveAtMostOne()
    ensures AtMostOne(DecodeLine)
  {
    forall l ensures |DecodeLine(l)| <= 1 {
      LineYields(l);
    }
  }

  /** The candidates of these lines that the library can parse. */
  ghost function Wanted(read: LineReading, parses: Candidate -> bool, lines: seq<string>): seq<Candidate>
  {
    Parsed(parses, DecodeLines(read, lines))
  }

  lemma WantedSnoc(read: LineReading, parses: Candidate -> bool, lines: seq<string>, line: string)
    requires AtMostOne(read)
    ensures Wanted(read, parses, lines + [line]) ==
            if read(line) != [] && parses(read(line)[0]) then Wanted(read, parses, lines) + [read(line)[0]]
            else Wanted(read, parses, lines)
  {
    DecodeLinesSnoc(read, lines, line);
    var all, c := DecodeLines(read, lines), read(line);
    if c != [] {
      assert c == [c[0]];
      ParsedSnoc(parses, all, c[0]);
    } else {
      assert all + c == all;
    }
  }

  /** A candidate wanted early on is still wanted in the end. */
  lemma WantedStays(read: LineReading, parses: Candidate -> bool, lines: seq<string>, i: nat)
    requires i <= |lines| && Wanted(read, parses, lines[..i]) != []
    ensures Wanted(read, parses, lines) != []
  {
    assert lines == lines[..i] + lines[i..];
    DecodeLinesAppend(read, lines[..i], lines[i..]);
    var c := Wanted(read, parses, lines[..i])[0];
    ParsedAppend(parses, DecodeLines(read, lines[..i]), DecodeLines(read, lines[i..]), c);
  }

  /** The diary after the wanted candidates of `lines` were added to `d0`. */
  ghost predicate Added(read: LineReading, parses: Candidate -> bool, lines: seq<string>,
                        d0: Diary, d: Diary, peer: bool)
  {
    d == NoteAll(d0, Wanted(read, parses, lines)) && (peer || Wanted(read, parses, lines) == [])
  }

  lemma AddedNext(read: LineReading, parses: Candidate -> bool, lines: seq<string>, i: nat,
                  d0: Diary, d: Diary, peer: bool)
    requires AtMostOne(read) && i < |lines| && Added(read, parses, lines[..i], d0, d, peer)
    ensures var c := read(lines[i]);
            if c == [] || !parses(c[0]) then Added(read, parses, lines[..i + 1], d0, d, peer)
            else if peer then Added(read, parses, lines[..i + 1], d0, Entry(d, CandidateAdded(c[0])), peer)
            else Wanted(read, parses, lines) != []
  {
    assert lines[..i + 1] == lines[..i] + [lines[i]];
    WantedSnoc(read, parses, lines[..i], lines[i]);
    var c := read(lines[i]);
    if c != [] && parses(c[0]) {
      NoteAllSnoc(d0, Wanted(read, parses, lines[..i]), c[0]);
      WantedStays(read, parses, lines, i + 1);
    }
  }

  lemma PasteStep(run: Run, s: State, text: string, parses: Candidate -> bool, cs: seq<Candidate>)
    requires Reach(run) == Some(s) && cs == Wanted(DecodeLine, parses, Split(text, "\n"))
    ensures cs == Parsed(parses, Decode(text))
    ensures Reach(After(run, RemoteIceClick(text, parses))) == OnRemoteIce(s, cs)
  {
  }

  ghost predicate IsLineReading(read: LineReading)
  {
    forall l {:trigger DecodeLine(l)} :: read(l) == DecodeLine(l)
  }

  method ReadOneLine(ghost read: LineReading, iceLine: string) returns (c: seq<Candidate>)
    requires IsLineReading(read)
    ensures c == read(iceLine)
  {
    c := ReadIceLine(iceLine);
  }

  class CallWidget {
    var pcfIface: bool
    var peerConnection: bool
    var ownIceText: string
    var offerText: string
    ghost var awaited: nat
    ghost var diary: Diary
    ghost var run: Run

    ghost function Abs(): State
      reads this
    {
      State(pcfIface, peerConnection, awaited, ownIceText, offerText, diary)
    }

    ghost predicate Valid()
      reads this
    {
      Reach(run) == Some(Abs())
    }

    constructor ()
      ensures Valid() && run == Fresh
    {
      pcfIface, peerConnection, ownIceText, offerText := false, false, "", "";
      awaited, diary, run := 0, Blank, Fresh;
    }

    /** `ok` is false where the source calls through a null peer connection or media stream. */
    method OnStartClicked(r: Replies) returns (ok: bool)
      requires Valid()
      modifies this
      ensures ok <==> old(pcfIface) || !r.factory || (r.peer && (r.noSenders && r.video ==> r.stream))
      ensures ok ==> Valid() && run == After(old(run), StartClick(r))
      ensures ok ==> Some(Abs()) == OnStart(old(Abs()), r)
    {
      run := After(run, StartClick(r));
      if pcfIface {
        return true;
      }
      pcfIface := r.factory;
      if !pcfIface {
        return true;
      }
      diary := Entry(diary, FactoryMade);
      peerConnection := r.peer;
      if !peerConnection {
        return false;
      }
      diary := Entry(diary, PeerMade);
      if !r.noSenders {
        return true;
      }
      if r.video {
        if !r.stream {
          return false;
        }
        if !r.added {
          return true;
        }
        diary := Entry(Entry(diary, StreamAdded), OfferRequested);
        awaited := awaited + 1;
      }
      return true;
    }

    method OnLocalSDPInfo(sdpText: string)
      requires Valid() && 0 < awaited
      modifies this
      ensures Valid() && run == After(old(run), SdpSignal(sdpText))
      ensures Abs() == OnLocalSdp(old(Abs()), sdpText)
      ensures offerText == sdpText && LocalTexts(diary) == old(LocalTexts(diary)) + [sdpText]
    {
      offerText := sdpText;
      diary := Entry(diary, LocalDescription(sdpText));
      awaited := awaited - 1;
      run := After(run, SdpSignal(sdpText));
    }

    method OnAnswerClicked(answer: string) returns (ok: bool)
      requires Valid()
      modifies this
      ensures ok <==> old(peerConnection)
      ensures ok ==> Valid() && run == After(old(run), AnswerClick(answer))
      ensures ok ==> RemoteTexts(diary) == old(RemoteTexts(diary)) + [answer]
    {
      if !peerConnection {
        return false;
      }
      diary := Entry(diary, RemoteDescription(answer));
      run := After(run, AnswerClick(answer));
      return true;
    }

    method OnLocalIceCandidate(iceCandidate: string)
      requires Valid() && peerConnection
      modifies this
      ensures Valid() && run == After(old(run), IceSignal(iceCandidate))
      ensures ownIceText == old(ownIceText) + (iceCandidate + "\n")
    {
      var str := ownIceText;
      str := str + (iceCandidate + "\n");
      ownIceText := str;
      run := After(run, IceSignal(iceCandidate));
    }

    /** `parses` says which candidates the library can build; the rest are skipped with a message. */
    method OnRemoteICEClicked(text: string, parses: Candidate -> bool) returns (ok: bool)
      requires Valid()
      modifies this
      ensures ok <==> old(peerConnection) || Parsed(parses, Decode(text)) == []
      ensures ok ==> Valid() && run == After(old(run), RemoteIceClick(text, parses))
      ensures ok ==> Some(Abs()) == OnRemoteIce(old(Abs()), Parsed(parses, Decode(text)))
    {
      var iceInfo := SplitLoop(text, "\n", false);
      LinesGiveAtMostOne();
      ghost var cs := Wanted(DecodeLine, parses, iceInfo);
      PasteStep(run, Abs(), text, parses, cs);
      ok := AddWanted(DecodeLine, iceInfo, parses, cs, After(run, RemoteIceClick(text, parses)));
    }

    method AddWanted(ghost read: LineReading, iceInfo: seq<string>, parses: Candidate -> bool,
                     ghost cs: seq<Candidate>, ghost next: Run) returns (ok: bool)
      requires AtMostOne(read) && IsLineReading(read) && cs == Wanted(read, parses, iceInfo)
      requires Reach(next) == OnRemoteIce(Abs(), cs)
      modifies this
      ensures ok <==> old(peerConnection) || cs == []
      ensures ok ==> Valid() && run == next && Some(Abs()) == OnRemoteIce(old(Abs()), cs)
    {
      ok := AddAll(read, iceInfo, parses);
      run := next;
    }

    /** The loop over the lines; `read` only names the specification of one line. */
    method AddAll(ghost read: LineReading, iceInfo: seq<string>, parses: Candidate -> bool) returns (ok: bool)
      requires AtMostOne(read) && IsLineReading(read)
      modifies this`diary
      ensures var cs := Wanted(read, parses, iceInfo);
              && (ok <==> peerConnection || cs == [])
              && (ok ==> diary == NoteAll(old(diary), cs))
    {
      var i := 0;
      while i < |iceInfo|
        invariant 0 <= i <= |iceInfo|
        invariant Added(read, parses, iceInfo[..i], old(diary), diary, peerConnection)
      {
        AddedNext(read, parses, iceInfo, i, old(diary), diary, peerConnection);
        var c := ReadOneLine(read, iceInfo[i]);
        if c != [] && parses(c[0]) {
          if !peerConnection {
            return false;
          }
          diary := Entry(diary, CandidateAdded(c[0]));
        }
        i := i + 1;
      }
      assert iceInfo[..i] == iceInfo;
      ok := true;
    }
  }
}
