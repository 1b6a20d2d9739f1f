/**
 What the read handlers make of a whole response, and the round trip: a roster printed as
 `header CRLF CRLF (name,id,status LF)*`, with any white space before each LF, is read back
 exactly when the response is put together as the handlers expect, for any text as header.
 */
module Response {
  import opened Options
  import opened Text
  import opened Decimal
  import opened Protocol
  import opened Roster

  /**
   `Short`: fewer than two non-empty parts, so `body[1]` is out of range.  Otherwise the id in the
   header, whether the body starts with `{`, and the roster lines if all of them have three fields.
   */
  datatype Response = Short | Full(id: Int32, push: bool, roster: Option<seq<Entry>>)

  /** The first part is the header, the second the body; later ones are not looked at. */
  function FromParts(body: seq<string>): Response
  {
    if |body| < 2 then Short else Full(PeerId(body[0]), "{" <= body[1], ReadBody(body[1]))
  }

  function Decode(text: string): Response
  {
    FromParts(Parts(text))
  }

  /** The reading part of `onControlRead`: the id from the header, then the names from the body. */
  method ReadControl(text: string, user: string) returns (ok: bool, id: int, listName: seq<string>)
    ensures ok <==> Decode(text).Full? && Decode(text).roster.Some?
    ensures ok ==> id == Decode(text).id && listName == Names(Accepted(user, Decode(text).roster.value))
  {
    var body := SplitLoop(text, BLANK_LINE, true);
    if |body| < 2 {
      return false, 0, [];
    }
    id := ReadPeerId(body[0]);
    var lines := SplitLoop(body[1], "\n", true);
    ok, listName := ListNames(ReadLine, lines, user);
  }

  /** The reading part of `onDataRead`: a push changes nothing, a roster updates index and list. */
  method ReadData(text: string, user: string, index: map<string, int>)
    returns (ok: bool, push: bool, peers: map<string, int>, listName: seq<string>)
    ensures ok <==> Decode(text).Full? && (Decode(text).push || Decode(text).roster.Some?)
    ensures ok ==> push == Decode(text).push
    ensures ok && !push ==> listName == Names(Accepted(user, Decode(text).roster.value))
    ensures ok && !push ==> peers == Store(index, Accepted(user, Decode(text).roster.value))
  {
    var body := SplitLoop(text, BLANK_LINE, true);
    if |body| < 2 {
      return false, false, map[], [];
    }
    push := "{" <= body[1];
    if push {
      return true, true, index, [];
    }
    var lines := SplitLoop(body[1], "\n", true);
    ok, peers, listName := ListPeers(ReadLine, lines, user, index);
  }

  /**
   Both handlers on one text.  Unless the body starts with a brace, they stop on the same texts and
   show the same list, and only the data handler changes the index.
   */
  method ReadBothWays(text: string, user: string, index: map<string, int>)
    returns (okControl: bool, listControl: seq<string>, okData: bool, listData: seq<string>, peers: map<string, int>)
    requires |Parts(text)| >= 2 ==> !("{" <= Parts(text)[1])
    ensures okControl == okData
    ensures okControl ==> listControl == listData
    ensures okData ==> forall name :: name in peers <==> name in index || name in listData
    ensures okData ==> forall name :: name in index && name !in listData ==> peers[name] == index[name]
  {
    var id;
    okControl, id, listControl := ReadControl(text, user);
    var push;
    okData, push, peers, listData := ReadData(text, user, index);
    if okData {
      IndexAfter(index, Accepted(user, Decode(text).roster.value));
    }
  }

  lemma IndexAfter(index: map<string, int>, es: seq<Entry>)
    ensures forall name :: name in Store(index, es) <==> name in index || name in Names(es)
    ensures forall name :: name in index && name !in Names(es) ==> Store(index, es)[name] == index[name]
  {
    forall name
      ensures name in Store(index, es) <==> name in index || name in Names(es)
      ensures name in index && name !in Names(es) ==> Store(index, es)[name] == index[name]
    {
      StoreIsLastId(index, es, name);
      LastIdSome(es, name);
    }
  }

  /* ---------- bodies made of lines ---------- */

  /** A line as printed: one line, with more on it than a CR. */
  predicate PrintedLine(l: string)
  {
    |l| > 1 && '\n' !in l
  }

  ghost predicate PrintedAll(lines: seq<string>)
  {
    forall i :: 0 <= i < |lines| ==> PrintedLine(lines[i])
  }

  lemma {:induction false} LinesOfPrint(lines: seq<string>)
    requires PrintedAll(lines)
    ensures SplitSkip(Unlines(lines), "\n") == lines
    decreases |lines|
  {
    if lines == [] {
      SplitNone("", "\n");
    } else {
      LinesOfPrint(lines[1..]);
      SplitAppendUnbordered(lines[0], Unlines(lines[1..]), "\n");
      OnePart(lines[0], '\n');
    }
  }

  /** A line holding nothing but a CR. */
  predicate CrLineAt(b: string, i: int)
  {
    0 <= i && i + 1 < |b| && b[i] == '\r' && b[i + 1] == '\n' && (i == 0 || b[i - 1] == '\n')
  }

  lemma {:induction false} NoCrLine(lines: seq<string>, i: int)
    requires PrintedAll(lines)
    ensures !CrLineAt(Unlines(lines), i)
    decreases |lines|
  {
    if lines != [] {
      var line, rest := lines[0], Unlines(lines[1..]);
      assert PrintedLine(line);
      NoCrLine(lines[1..], i - |line| - 1);
      NoCrLineCons(line, rest, i);
    }
  }

  lemma NoCrLineCons(line: string, rest: string, i: int)
    requires PrintedLine(line) && !CrLineAt(rest, i - |line| - 1)
    ensures !CrLineAt(line + "\n" + rest, i)
  {
    var b := line + "\n" + rest;
    if 0 < i <= |line| {
      assert b[i - 1] == line[i - 1];
    } else if i == 0 {
      assert b[1] == line[1];
    }
  }

  /** So no blank line occurs in a printed body, and a CRLF in front of it makes none. */
  lemma NoBlankLine(b: string, i: int)
    requires forall k :: !CrLineAt(b, k)
    ensures !MatchAt(b, BLANK_LINE, i) && !MatchAt("\r\n" + b, BLANK_LINE, i)
  {
    var c := "\r\n" + b;
    if 0 <= i && i + 4 <= |c| {
      assert !CrLineAt(b, i);
      assert c[i..i + 4][2] == c[i + 2] == b[i] && c[i..i + 4][3] == c[i + 3] == b[i + 1];
      assert c[i..i + 4][1] == c[i + 1] && (i > 0 ==> c[i + 1] == b[i - 1]);
    }
    if 0 <= i && i + 4 <= |b| {
      assert !CrLineAt(b, i + 2);
      assert b[i..i + 4][1] == b[i + 1] && b[i..i + 4][2] == b[i + 2] && b[i..i + 4][3] == b[i + 3];
    }
  }

  lemma NoBlankLineInBody(lines: seq<string>)
    requires PrintedAll(lines)
    ensures !Contains(Unlines(lines), BLANK_LINE)
    ensures !Contains("\r\n" + Unlines(lines), BLANK_LINE)
  {
    var b := Unlines(lines);
    forall k ensures !CrLineAt(b, k) {
      NoCrLine(lines, k);
    }
    forall i ensures !MatchAt(b, BLANK_LINE, i) && !MatchAt("\r\n" + b, BLANK_LINE, i) {
      NoBlankLine(b, i);
    }
  }

  /* ---------- printing a roster ---------- */

  /** Names a server can put on a line: not empty, no field or line separator. */
  predicate PlainName(name: string)
  {
    name != "" && ',' !in name && '\n' !in name
  }

  predicate Plain(e: Entry)
  {
    PlainName(e.name) && IsInt32(e.id) && IsInt32(e.status)
  }

  ghost predicate AllPlain(es: seq<Entry>)
  {
    forall i :: 0 <= i < |es| ==> Plain(es[i])
  }

  /** What may stand between the status and the line feed: a CR, or any white space on the line. */
  predicate LineTail(w: string)
  {
    AllSpaces(w) && '\n' !in w
  }

  function PrintEntry(w: string, e: Entry): string
  {
    e.name + "," + (Print(e.id) + "," + (Print(e.status) + w))
  }

  function PrintEntries(w: string, es: seq<Entry>): (lines: seq<string>)
    ensures |lines| == |es|
  {
    if es == [] then [] else PrintEntries(w, es[..|es| - 1]) + [PrintEntry(w, es[|es| - 1])]
  }

  lemma EntryIsOneLine(w: string, e: Entry)
    requires Plain(e) && LineTail(w)
    ensures PrintedLine(PrintEntry(w, e))
  {
    PrintedChars(e.id);
    PrintedChars(e.status);
  }

  lemma NoCommaInSpace(w: string)
    requires AllSpaces(w)
    ensures ',' !in w
  {
  }

  lemma ReadLineOfPrint(w: string, e: Entry)
    requires Plain(e) && LineTail(w)
    ensures ReadLine(PrintEntry(w, e)) == Some(e)
  {
    PrintedChars(e.id);
    PrintedChars(e.status);
    NoCommaInSpace(w);
    ThreeParts(e.name, Print(e.id), Print(e.status) + w, ',');
    ToIntOfPrint(e.id);
    ToIntPadded("", e.status, w);
    assert "" + (Print(e.status) + w) == Print(e.status) + w;
  }

  lemma {:induction false} PrintedEntries(w: string, es: seq<Entry>)
    requires AllPlain(es) && LineTail(w)
    ensures PrintedAll(PrintEntries(w, es))
    decreases |es|
  {
    if es != [] {
      PrintedEntries(w, es[..|es| - 1]);
      EntryIsOneLine(w, es[|es| - 1]);
    }
  }

  lemma {:induction false} ReadLinesEach(read: Reading, lines: seq<string>, es: seq<Entry>)
    requires |lines| == |es|
    requires forall i :: 0 <= i < |es| ==> read(lines[i]) == Some(es[i])
    ensures ReadLines(read, lines) == Some(es)
    decreases |es|
  {
    if es != [] {
      var n := |es| - 1;
      ReadLinesEach(read, lines[..n], es[..n]);
      assert es == es[..n] + [es[n]];
    }
  }

  lemma {:induction false} PrintEntriesAt(w: string, es: seq<Entry>, i: nat)
    requires i < |es|
    ensures PrintEntries(w, es)[i] == PrintEntry(w, es[i])
    decreases |es|
  {
    if i < |es| - 1 {
      PrintEntriesAt(w, es[..|es| - 1], i);
    }
  }

  function PrintBody(w: string, es: seq<Entry>): string
  {
    Unlines(PrintEntries(w, es))
  }

  /** The body of a printed roster reads back as the same entries, in order. */
  lemma ReadBodyOfPrint(w: string, es: seq<Entry>)
    requires AllPlain(es) && LineTail(w)
    ensures ReadBody(PrintBody(w, es)) == Some(es)
  {
    PrintedEntries(w, es);
    LinesOfPrint(PrintEntries(w, es));
    forall i | 0 <= i < |es| ensures ReadLine(PrintEntries(w, es)[i]) == Some(es[i]) {
      PrintEntriesAt(w, es, i);
      ReadLineOfPrint(w, es[i]);
    }
    ReadLinesEach(ReadLine, PrintEntries(w, es), es);
  }

  /* ---------- when the handlers read it back ---------- */

  lemma BodyEmpty(w: string, es: seq<Entry>)
    ensures PrintBody(w, es) == "" <==> es == []
  {
  }

  lemma BodyHasNoBlankLine(w: string, es: seq<Entry>)
    requires AllPlain(es) && LineTail(w)
    ensures !Contains(PrintBody(w, es), BLANK_LINE) && !Contains("\r\n" + PrintBody(w, es), BLANK_LINE)
  {
    PrintedEntries(w, es);
    NoBlankLineInBody(PrintEntries(w, es));
  }

  lemma CrLfSplice(p: string, b: string)
    ensures p + "\r\n" + BLANK_LINE + b == p + BLANK_LINE + ("\r\n" + b)
  {
  }

  lemma CrLfHeader(h: string)
    requires EndsInCrLf(h) && !Contains(h, BLANK_LINE)
    ensures CleanBefore(h[..|h| - 2], BLANK_LINE)
  {
    var p := h[..|h| - 2];
    CleanHeader(p);
    forall j ensures MatchAt(p, BLANK_LINE, j) ==> MatchAt(h, BLANK_LINE, j) {
      if 0 <= j && j + 4 <= |p| { assert h[j..j + 4] == p[j..j + 4]; }
    }
    assert EndsInCrLf(p) ==> h[|h| - 4..|h|] == BLANK_LINE;
    assert EndsInCrLf(p) ==> MatchAt(h, BLANK_LINE, |h| - 4);
  }

  lemma CrLineUnreadable(b: string)
    ensures ReadBody("\r\n" + b).None?
  {
    var lines := SplitSkip("\r\n" + b, "\n");
    assert "\r\n" + b == "\r" + "\n" + b;
    SplitAppendUnbordered("\r", b, "\n");
    OnePart("\r", '\n');
    OnePart("\r", ',');
    assert lines[0] == "\r";
    UnreadLine(ReadLine, lines, 0);
  }

  lemma NoBraceFirst(b: string)
    ensures !("{" <= "\r\n" + b)
  {
    assert ("\r\n" + b)[0] == '\r';
  }

  /** No roster comes out and it is no push: both handlers stop at an index out of range. */
  predicate Unread(r: Response)
  {
    r.Short? || (!r.push && r.roster.None?)
  }

  lemma FirstChar(w: string, es: seq<Entry>)
    requires AllPlain(es) && LineTail(w) && es != []
    ensures "{" <= PrintBody(w, es) <==> es[0].name[0] == '{'
  {
    var lines := PrintEntries(w, es);
    PrintEntriesAt(w, es, 0);
    assert PrintBody(w, es)[0] == lines[0][0] == es[0].name[0];
  }

  /* ---------- any header ---------- */

  function DropCrLf(p: string): string
  {
    if EndsInCrLf(p) then p[..|p| - 2] else p
  }

  /** The header ends in a CRLF of its own, so the blank line after it is found two characters early. */
  predicate EndsEarly(h: string)
  {
    EndsInCrLf(Split(h, BLANK_LINE)[|Split(h, BLANK_LINE)| - 1])
  }

  /** The pieces of a header that is followed by a blank line. */
  function HeaderPieces(h: string): seq<string>
  {
    var ps := Split(h, BLANK_LINE);
    ps[..|ps| - 1] + [DropCrLf(ps[|ps| - 1])]
  }

  function HeaderParts(h: string): seq<string>
  {
    NonEmpty(HeaderPieces(h))
  }

  lemma JoinLast(xs: seq<string>, p: string, sep: string)
    ensures Join(xs + [p], sep) == (if xs == [] then "" else Join(xs, sep) + sep) + p
  {
    if xs != [] { JoinAppend(xs, [p], sep); } else { assert xs + [p] == [p]; }
  }

  /** A CRLF at the end of the last piece can as well stand in front of what follows. */
  lemma JoinedAgain(xs: seq<string>, p: string, b: string)
    requires EndsInCrLf(p)
    ensures Join(xs + [p], BLANK_LINE) + BLANK_LINE + b
         == Join(xs + [DropCrLf(p)], BLANK_LINE) + BLANK_LINE + ("\r\n" + b)
  {
    var q := DropCrLf(p);
    assert p == q + "\r\n";
    JoinLast(xs, p, BLANK_LINE);
    JoinLast(xs, q, BLANK_LINE);
    var front := if xs == [] then "" else Join(xs, BLANK_LINE) + BLANK_LINE;
    Regroup(front, q, "\r\n");
    CrLfSplice(front + q, b);
  }

  lemma CleanEnd(p: string)
    requires !Contains(p, BLANK_LINE)
    ensures CleanBefore(DropCrLf(p), BLANK_LINE) && !Contains(DropCrLf(p), BLANK_LINE)
  {
    CleanHeader(p);
    if EndsInCrLf(p) { CrLfHeader(p); }
    CleanHeader(DropCrLf(p));
  }

  lemma LeftmostLast(xs: seq<string>, p: string)
    requires LeftmostParts(xs + [p], BLANK_LINE)
    ensures LeftmostParts(xs + [DropCrLf(p)], BLANK_LINE) && CleanBefore(DropCrLf(p), BLANK_LINE)
  {
    assert (xs + [p])[|xs|] == p;
    CleanEnd(p);
    assert forall k :: 0 <= k < |xs| ==> (xs + [p])[k] == xs[k];
  }

  /** Leftmost pieces, the last one clean, in front of anything. */
  lemma SplitJoined(qs: seq<string>, b: string)
    requires qs != [] && LeftmostParts(qs, BLANK_LINE) && CleanBefore(qs[|qs| - 1], BLANK_LINE)
    ensures Parts(Join(qs, BLANK_LINE) + BLANK_LINE + b) == NonEmpty(qs) + Parts(b)
  {
    LeftmostIsSplit(qs, BLANK_LINE);
    SplitAppend(Join(qs, BLANK_LINE), b, BLANK_LINE);
    NonEmptyAppend(qs, Split(b, BLANK_LINE));
  }

  /** Whatever the header and the body: the parts of the one, then those of the other. */
  lemma HeaderCut(h: string, b: string)
    ensures Parts(h + BLANK_LINE + b) == HeaderParts(h) + Parts(if EndsEarly(h) then "\r\n" + b else b)
  {
    var ps := Split(h, BLANK_LINE);
    var xs, p := ps[..|ps| - 1], ps[|ps| - 1];
    assert ps == xs + [p];
    SplitIsLeftmost(h, BLANK_LINE);
    LeftmostLast(xs, p);
    SplitJoined(xs + [DropCrLf(p)], if EndsEarly(h) then "\r\n" + b else b);
    if EndsEarly(h) { JoinedAgain(xs, p, b); }
  }

  /** A header without a blank line inside is one part, less a CRLF at its end. */
  lemma PlainHeader(h: string, es: seq<Entry>)
    requires !Contains(h, BLANK_LINE)
    ensures HeaderParts(h) == if DropCrLf(h) == "" then [] else [DropCrLf(h)]
    ensures WellBuilt(h, es) <==> es != [] && h != "" && !EndsInCrLf(h)
  {
    SplitNone(h, BLANK_LINE);
    assert HeaderPieces(h) == [] + [DropCrLf(h)];
    NonEmptySnoc([], DropCrLf(h));
  }

  /* ---------- extra blank lines ---------- */

  lemma LeadingBlankLine(text: string)
    ensures Parts(BLANK_LINE + text) == Parts(text)
  {
    CleanHeader("");
    SplitHead("", BLANK_LINE, text);
    assert BLANK_LINE + text == "" + BLANK_LINE + text;
    NonEmptyAppend([""], Split(text, BLANK_LINE));
    NonEmptySnoc([], "");
    assert [] + [""] == [""];
  }

  lemma {:induction false} LeadingBlankLines(n: nat, text: string)
    ensures Parts(Repeat(BLANK_LINE, n) + text) == Parts(text)
    decreases n
  {
    if n == 0 {
      assert "" + text == text;
    } else {
      LeadingBlankLines(n - 1, text);
      LeadingBlankLine(Repeat(BLANK_LINE, n - 1) + text);
      Regroup(BLANK_LINE, Repeat(BLANK_LINE, n - 1), text);
    }
  }

  lemma {:induction false} CrLfCommutes(n: nat)
    ensures "\r\n" + Repeat(BLANK_LINE, n) == Repeat(BLANK_LINE, n) + "\r\n"
    decreases n
  {
    if n > 0 {
      var r := Repeat(BLANK_LINE, n - 1);
      CrLfCommutes(n - 1);
      assert "\r\n" + BLANK_LINE == BLANK_LINE + "\r\n";
      Regroup("\r\n", BLANK_LINE, r);
      Regroup(BLANK_LINE, "\r\n", r);
      Regroup(BLANK_LINE, r, "\r\n");
    }
  }

  lemma CrLfMovesOver(n: nat, b: string)
    ensures "\r\n" + (Repeat(BLANK_LINE, n) + b) == Repeat(BLANK_LINE, n) + ("\r\n" + b)
  {
    CrLfCommutes(n);
    Regroup("\r\n", Repeat(BLANK_LINE, n), b);
    Regroup(Repeat(BLANK_LINE, n), "\r\n", b);
  }

  /** For every header and body, blank lines before the header and further ones after it change nothing. */
  lemma {:induction false} BlankLinesIgnored(k: nat, h: string, n: nat, b: string)
    ensures Parts(Repeat(BLANK_LINE, k) + (h + BLANK_LINE + (Repeat(BLANK_LINE, n) + b)))
         == Parts(h + BLANK_LINE + b)
  {
    var rest := Repeat(BLANK_LINE, n) + b;
    LeadingBlankLines(k, h + BLANK_LINE + rest);
    HeaderCut(h, rest);
    HeaderCut(h, b);
    CrLfMovesOver(n, b);
    LeadingBlankLines(n, "\r\n" + b);
    LeadingBlankLines(n, b);
  }

  /** A printed response with `k` blank lines before the header and `n` more after it. */
  function PrintPadded(k: nat, h: string, n: nat, w: string, es: seq<Entry>): string
  {
    Repeat(BLANK_LINE, k) + (h + BLANK_LINE + (Repeat(BLANK_LINE, n) + PrintBody(w, es)))
  }

  /* ---------- the round trip ---------- */

  /** The parts the body contributes. */
  function BodyParts(h: string, w: string, es: seq<Entry>): seq<string>
  {
    if EndsEarly(h) then ["\r\n" + PrintBody(w, es)]
    else if es == [] then [] else [PrintBody(w, es)]
  }

  lemma {:induction false} PaddedParts(k: nat, h: string, n: nat, w: string, es: seq<Entry>)
    requires AllPlain(es) && LineTail(w)
    ensures Parts(PrintPadded(k, h, n, w, es)) == HeaderParts(h) + BodyParts(h, w, es)
  {
    var b := PrintBody(w, es);
    BlankLinesIgnored(k, h, n, b);
    HeaderCut(h, b);
    BodyEmpty(w, es);
    BodyHasNoBlankLine(w, es);
    SplitNone(b, BLANK_LINE);
    SplitNone("\r\n" + b, BLANK_LINE);
  }

  /** The response is put together as the handlers expect: one header part, then a roster. */
  predicate WellBuilt(h: string, es: seq<Entry>)
  {
    es != [] && |HeaderParts(h)| == 1 && !EndsEarly(h)
  }

  /** The second part of a header with a blank line inside is read in place of the roster. */
  function TakenRoster(h: string, es: seq<Entry>): Option<seq<Entry>>
  {
    var hs := HeaderParts(h);
    if |hs| >= 2 then ReadBody(hs[1]) else if WellBuilt(h, es) then Some(es) else None
  }

  predicate TakenForPush(h: string, es: seq<Entry>)
    requires AllPlain(es)
  {
    var hs := HeaderParts(h);
    if |hs| >= 2 then "{" <= hs[1] else WellBuilt(h, es) && es[0].name[0] == '{'
  }

  lemma RosterPart(header: string, w: string, es: seq<Entry>)
    requires AllPlain(es) && LineTail(w) && es != []
    ensures FromParts([header, PrintBody(w, es)]) == Full(PeerId(header), es[0].name[0] == '{', Some(es))
  {
    ReadBodyOfPrint(w, es);
    FirstChar(w, es);
  }

  lemma CrLfPart(header: string, b: string)
    ensures FromParts([header, "\r\n" + b]) == Full(PeerId(header), false, None)
  {
    CrLineUnreadable(b);
    NoBraceFirst(b);
  }

  lemma FirstTwo(xs: seq<string>, ys: seq<string>)
    requires |xs| >= 2
    ensures FromParts(xs + ys) == FromParts(xs)
  {
  }

  /** One header part, or none, and what the body contributes. */
  lemma OneHeaderPart(hs: seq<string>, early: bool, w: string, es: seq<Entry>, bs: seq<string>)
    requires AllPlain(es) && LineTail(w) && |hs| <= 1
    requires bs == if early then ["\r\n" + PrintBody(w, es)] else if es == [] then [] else [PrintBody(w, es)]
    ensures FromParts(hs + bs) ==
            if hs == [] || (es == [] && !early) then Short
            else if early then Full(PeerId(hs[0]), false, None)
            else Full(PeerId(hs[0]), es[0].name[0] == '{', Some(es))
  {
    if hs != [] && early {
      assert hs + bs == [hs[0], "\r\n" + PrintBody(w, es)];
      CrLfPart(hs[0], PrintBody(w, es));
    } else if hs != [] && es != [] {
      assert hs + bs == [hs[0], PrintBody(w, es)];
      RosterPart(hs[0], w, es);
    }
  }

  /** A printed response in full, for any header. */
  lemma {:induction false} PaddedResponse(k: nat, h: string, n: nat, w: string, es: seq<Entry>)
    requires AllPlain(es) && LineTail(w)
    ensures var hs := HeaderParts(h);
            Decode(PrintPadded(k, h, n, w, es)) ==
            if |hs| >= 2 then FromParts(hs)
            else if hs == [] || (es == [] && !EndsEarly(h)) then Short
            else if EndsEarly(h) then Full(PeerId(hs[0]), false, None)
            else Full(PeerId(hs[0]), es[0].name[0] == '{', Some(es))
  {
    var hs, bs := HeaderParts(h), BodyParts(h, w, es);
    PaddedParts(k, h, n, w, es);
    if |hs| >= 2 { FirstTwo(hs, bs); } else { OneHeaderPart(hs, EndsEarly(h), w, es, bs); }
  }

  /**
   Roster round trip, for any text as header, any blank lines around it, every list of plain entries,
   and lines ended by LF, by CRLF, or with other white space before the LF.  A header of two or more
   parts decides the response alone.  Otherwise the entries are read back exactly when there is at
   least one and the header is one part not ended by a CRLF of its own, and in every other case both
   handlers stop.
   */
  lemma {:induction false} RosterRoundTrip(k: nat, h: string, n: nat, w: string, es: seq<Entry>)
    requires AllPlain(es) && LineTail(w)
    ensures var r, hs := Decode(PrintPadded(k, h, n, w, es)), HeaderParts(h);
            if |hs| >= 2 then r == FromParts(hs)
            else if WellBuilt(h, es) then r == Full(PeerId(hs[0]), es[0].name[0] == '{', Some(es))
            else Unread(r)
  {
    PaddedResponse(k, h, n, w, es);
  }

  /** Which roster the handlers get, if any, and whether the data handler takes it for a push. */
  lemma RosterTakenForPush(k: nat, h: string, n: nat, w: string, es: seq<Entry>)
    requires AllPlain(es) && LineTail(w)
    ensures var r := Decode(PrintPadded(k, h, n, w, es));
            && (r.Full? && r.push <==> TakenForPush(h, es))
            && (if r.Full? then r.roster else None) == TakenRoster(h, es)
  {
    RosterRoundTrip(k, h, n, w, es);
  }

  /**
   The id travels: header to `my_id`, `my_id` to the next `/wait`, and back on the server, exactly
   when there is a second part of any kind.
   */
  lemma {:induction false} IdRoundTrip(k: nat, h: string, n: nat, w: string, es: seq<Entry>,
                                       pre: string, id: int, rest: string)
    requires AllPlain(es) && LineTail(w)
    requires 0 <= id <= 2147483647
    requires NoIdIn(pre) && (rest == "" || !IsDigit(rest[0]))
    requires HeaderParts(h) != [] && HeaderParts(h)[0] == pre + "Pragma: " + (Print(id) + rest)
    ensures var r := Decode(PrintPadded(k, h, n, w, es));
            && (r.Full? <==> |HeaderParts(h)| >= 2 || es != [] || EndsEarly(h))
            && (r.Full? ==> r.id == id && ReadWait(WaitRequest(r.id)) == Some(id))
  {
    PaddedResponse(k, h, n, w, es);
    PeerIdOfHeader(pre, id, rest);
    ReadWaitOfRequest(id);
  }
}
