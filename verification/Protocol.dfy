/**
 The text exchanged with the signalling server (HTTP/1.0, RFC 1945): the two requests the
 client writes, the header/body cut it applies to a response and the id it takes from the
 `Pragma` header.
 */
module Protocol {
  import opened Options
  import opened Text
  import opened Decimal
  import opened NumberText

  const BLANK_LINE := "\r\n\r\n"
  const PRAGMA := "Pragma: "

  /* ---------- responses: header and body ---------- */

  /** `split("\r\n\r\n", SkipEmptyParts)` of a whole response. */
  function Parts(text: string): seq<string>
  {
    SplitSkip(text, BLANK_LINE)
  }

  predicate EndsInCrLf(h: string)
  {
    2 <= |h| && h[|h| - 2] == '\r' && h[|h| - 1] == '\n'
  }

  /** The border of the separator is CRLF: a header is clean unless it ends in one. */
  lemma CleanHeader(h: string)
    ensures CleanBefore(h, BLANK_LINE) <==> !Contains(h, BLANK_LINE) && !EndsInCrLf(h)
  {
    var q := h + BLANK_LINE[..3];
    assert BLANK_LINE[..3] == "\r\n\r";
    CleanHasNone(h, BLANK_LINE);
    if EndsInCrLf(h) {
      assert q[|h| - 2..|h| + 2] == BLANK_LINE;
      assert MatchAt(q, BLANK_LINE, |h| - 2);
    }
    if j :| MatchAt(q, BLANK_LINE, j) {
      MatchNearEnd(h, q, j);
    }
  }

  lemma MatchNearEnd(h: string, q: string, j: int)
    requires q == h + "\r\n\r" && MatchAt(q, BLANK_LINE, j)
    ensures MatchAt(h, BLANK_LINE, j) || (j == |h| - 2 && EndsInCrLf(h))
  {
    var m := q[j..j + 4];
    assert m[0] == q[j] && m[1] == q[j + 1] && m[2] == q[j + 2] && m[3] == q[j + 3];
    if j + 4 <= |h| {
      assert h[j..j + 4] == m;
    }
  }

  /** For a non-empty header and body the cut is exact precisely under these two conditions. */
  lemma HeaderBodySplit(h: string, b: string)
    requires h != "" && b != ""
    ensures Parts(h + BLANK_LINE + b) == [h, b] <==>
            !Contains(h, BLANK_LINE) && !EndsInCrLf(h) && !Contains(b, BLANK_LINE)
  {
    CleanHeader(h);
    if CleanBefore(h, BLANK_LINE) && !Contains(b, BLANK_LINE) {
      CutOnce(h, b);
    }
    if Parts(h + BLANK_LINE + b) == [h, b] {
      OneSeparator(h, b);
    }
  }

  lemma CutOnce(h: string, b: string)
    requires CleanBefore(h, BLANK_LINE) && !Contains(b, BLANK_LINE)
    ensures Parts(h + BLANK_LINE + b) == (if h == "" then [] else [h]) + (if b == "" then [] else [b])
  {
    SplitHead(h, BLANK_LINE, b);
    SplitNone(b, BLANK_LINE);
    NonEmptySnoc([h], b);
    NonEmptySnoc([], h);
    assert [] + [h] == [h];
  }

  lemma OneSeparator(h: string, b: string)
    requires h != "" && b != "" && Parts(h + BLANK_LINE + b) == [h, b]
    ensures CleanBefore(h, BLANK_LINE) && !Contains(b, BLANK_LINE)
  {
    var text := h + BLANK_LINE + b;
    var parts := Split(text, BLANK_LINE);
    SplitLength(text, BLANK_LINE);
    NonEmptyLength(parts);
    assert TotalLength([h, b]) == |h| + |b| by {
      assert [h, b][1..] == [b] && [b][1..] == [];
    }
    assert |parts| == 2;
    assert parts == [parts[0]] + [parts[1]];
    NonEmptySnoc([parts[0]], parts[1]);
    NonEmptySnoc([], parts[0]);
    assert [] + [parts[0]] == [parts[0]];
    assert parts == [h, b];
    SplitCharacterised(text, BLANK_LINE, parts);
    assert CleanBefore(parts[0], BLANK_LINE);
  }

  /* ---------- responses: the id in the header ---------- */

  /** The regular expression `Pragma: (\d+)` matches at `i`. */
  predicate PragmaAt(s: string, i: int)
  {
    MatchAt(s, PRAGMA, i) && i + |PRAGMA| < |s| && IsDigit(s[i + |PRAGMA|])
  }

  function PragmaFrom(s: string, from: nat): (i: int)
    ensures i == -1 || (from <= i && PragmaAt(s, i))
    ensures forall j :: from <= j && (i == -1 || j < i) ==> !PragmaAt(s, j)
    decreases |s| - from
  {
    if PragmaAt(s, from) then from
    else if from >= |s| then -1
    else PragmaFrom(s, from + 1)
  }

  /** `rx.indexIn(header); rx.capturedTexts()[1]`: no match captures the empty text. */
  function Captured(header: string): string
  {
    var i := PragmaFrom(header, 0);
    if i == -1 then "" else DigitPrefix(header[i + |PRAGMA|..])
  }

  function PeerId(header: string): Int32
  {
    ToInt(Captured(header))
  }

  /** The search of `indexIn`. */
  method FindPragma(s: string) returns (i: int)
    ensures i == PragmaFrom(s, 0)
  {
    var k := 0;
    while k < |s| && !PragmaAt(s, k)
      invariant k <= |s| && PragmaFrom(s, k) == PragmaFrom(s, 0)
    {
      k := k + 1;
    }
    i := if k < |s| then k else -1;
  }

  method Capture(header: string) returns (captured: string)
    ensures captured == Captured(header)
  {
    var i := FindPragma(header);
    captured := "";
    if i != -1 {
      var tail := header[i + |PRAGMA|..];
      var k, _ := ScanDigits(tail);
      captured := tail[..k];
    }
  }

  /** Search, capture and number as the handlers run them. */
  method ReadPeerId(header: string) returns (id: Int32)
    ensures id == PeerId(header)
  {
    var captured := Capture(header);
    id := ReadInt(captured);
  }

  /** `Pragma: ` starts with its only `P`, so an earlier match must lie wholly before this one. */
  lemma PragmaStaysBefore(pre: string, s: string, j: int)
    requires pre + PRAGMA <= s && 0 <= j < |pre| && PragmaAt(s, j)
    ensures PragmaAt(pre, j)
  {
    var n := |PRAGMA|;
    var m := s[j..j + n];
    assert s[..|pre| + n] == pre + PRAGMA;
    assert s[|pre|] == (pre + PRAGMA)[|pre|] == 'P';
    forall x | j < x < j + n ensures s[x] != 'P' {
      assert s[x] == m[x - j];
    }
    assert j + n < |pre|;
    assert pre == s[..|pre|];
    assert pre[j..j + n] == m && pre[j + n] == s[j + n];
  }

  lemma {:induction false} FirstPragma(pre: string, tail: string)
    requires forall j :: !PragmaAt(pre, j)
    requires tail != "" && IsDigit(tail[0])
    ensures PragmaFrom(pre + PRAGMA + tail, 0) == |pre|
  {
    var s := pre + PRAGMA + tail;
    var k := |pre| + |PRAGMA|;
    assert s[|pre|..k] == PRAGMA && s[k] == tail[0];
    assert PragmaAt(s, |pre|);
    assert s[..k] == pre + PRAGMA;
    forall j | 0 <= j < |pre| ensures !PragmaAt(s, j) {
      if PragmaAt(s, j) { PragmaStaysBefore(pre, s, j); }
    }
  }

  /** An id is given at `i`: the text `Pragma: ` and a digit. */
  predicate IdAt(s: string, i: int)
  {
    0 <= i && i + 9 <= |s| && s[i..i + 8] == "Pragma: " && IsDigit(s[i + 8])
  }

  lemma IdAtIsPragma(s: string, i: int)
    ensures IdAt(s, i) <==> PragmaAt(s, i)
  {
  }

  ghost predicate NoIdIn(s: string)
  {
    forall i :: !IdAt(s, i)
  }

  lemma NoPragmaIn(s: string)
    requires NoIdIn(s)
    ensures forall j :: !PragmaAt(s, j)
  {
    forall j ensures !PragmaAt(s, j) {
      IdAtIsPragma(s, j);
    }
  }

  lemma CapturedDigits(ds: string, rest: string)
    requires ds != "" && AllDigits(ds) && (rest == "" || !IsDigit(rest[0]))
    ensures ToInt(DigitPrefix(ds + rest)) == if Value(ds) <= 2147483647 then Value(ds) else 0
  {
    DigitPrefixOfDigits(ds, rest);
    assert ds == "" + ("" + (ds + ""));
    NumberRead(ds, "", "", ds, "");
  }

  /** Any header that gives an id: its digits count up to the first character that is none. */
  lemma {:induction false} PeerIdOfDigits(pre: string, ds: string, rest: string)
    requires NoIdIn(pre) && ds != "" && AllDigits(ds) && (rest == "" || !IsDigit(rest[0]))
    ensures PeerId(pre + "Pragma: " + (ds + rest)) == if Value(ds) <= 2147483647 then Value(ds) else 0
  {
    var tail := ds + rest;
    NoPragmaIn(pre);
    assert tail[0] == ds[0] && IsDigit(ds[0]);
    FirstPragma(pre, tail);
    assert PRAGMA == "Pragma: ";
    assert (pre + PRAGMA + tail)[|pre| + |PRAGMA|..] == tail;
    CapturedDigits(ds, rest);
  }

  /** Any other header reads as 0. */
  lemma PeerIdOfNone(header: string)
    requires NoIdIn(header)
    ensures PeerId(header) == 0
  {
    NoPragmaIn(header);
    Malformed("", ' ');
  }

  /** A header carrying `id` in its first `Pragma: ` line yields `id`. */
  lemma PeerIdOfHeader(pre: string, id: int, rest: string)
    requires 0 <= id <= 2147483647
    requires NoIdIn(pre) && (rest == "" || !IsDigit(rest[0]))
    ensures PeerId(pre + "Pragma: " + (Print(id) + rest)) == id
  {
    PeerIdOfDigits(pre, Print(id), rest);
    ValueOfPrint(id);
  }

  /* ---------- requests ---------- */

  const WAIT_START := "GET /wait?peer_id="
  const REQUEST_END := " HTTP/1.0\r\n\r\n"

  function SignInRequest(username: string): string
  {
    "GET /sign_in?" + username + REQUEST_END
  }

  function WaitRequest(id: int): string
  {
    WAIT_START + Print(id) + REQUEST_END
  }

  /** How a server reads a request: a start of its own, a value without spaces, and the end. */
  function ReadValue(start: string, request: string): Option<string>
  {
    if start <= request then
      var rest := request[|start|..];
      var i := IndexOf(rest, " ", 0);
      if i != -1 && rest[i..] == " HTTP/1.0\r\n\r\n" then Some(rest[..i]) else None
    else None
  }

  function ReadSignIn(request: string): Option<string>
  {
    ReadValue("GET /sign_in?", request)
  }

  function ReadWait(request: string): Option<int>
  {
    match ReadValue("GET /wait?peer_id=", request)
    case None => None
    case Some(v) => Some(ToInt(v))
  }

  lemma FirstSpace(v: string, t: string)
    requires ' ' !in v
    ensures IndexOf(v + " " + t, " ", 0) == |v|
  {
    ContainsChar(v, ' ');
    UnborderedClean(v, " ");
    FirstMatch(v, " ", t);
  }

  lemma {:induction false} SpaceInside(v: string) returns (x: string, y: string)
    requires ' ' in v
    ensures v == x + " " + y && ' ' !in x
    decreases |v|
  {
    if v[0] == ' ' {
      x, y := "", v[1..];
    } else {
      x, y := SpaceInside(v[1..]);
      x := [v[0]] + x;
    }
  }

  /** A value comes through exactly when it holds no space. */
  lemma {:induction false} ReadValueBack(start: string, v: string)
    ensures ReadValue(start, start + (v + " HTTP/1.0\r\n\r\n")) == if ' ' in v then None else Some(v)
  {
    var end := " HTTP/1.0\r\n\r\n";
    var rest := v + end;
    assert end == " " + end[1..];
    assert (start + rest)[|start|..] == rest;
    if ' ' in v {
      var x, y := SpaceInside(v);
      assert rest == x + " " + (y + end);
      FirstSpace(x, y + end);
      assert |rest[|x|..]| > |end|;
    } else {
      assert rest == v + " " + end[1..];
      FirstSpace(v, end[1..]);
      assert rest[|v|..] == end && rest[..|v|] == v;
    }
  }

  lemma EndsBlank(start: string, v: string)
    ensures var r := start + (v + " HTTP/1.0\r\n\r\n"); |r| >= 4 && r[|r| - 4..] == "\r\n\r\n"
  {
    var end := " HTTP/1.0\r\n\r\n";
    var r := start + (v + end);
    assert r[|r| - 4..] == end[|end| - 4..];
  }

  /** The sign-in names the user to the server exactly when the name holds no space. */
  lemma SignInOfRequest(username: string)
    ensures ReadSignIn(SignInRequest(username)) == if ' ' in username then None else Some(username)
    ensures var r := SignInRequest(username); |r| >= 4 && r[|r| - 4..] == "\r\n\r\n"
  {
    Regroup("GET /sign_in?", username, " HTTP/1.0\r\n\r\n");
    ReadValueBack("GET /sign_in?", username);
    EndsBlank("GET /sign_in?", username);
  }

  /** The id in a wait request reads back as the same id. */
  lemma ReadWaitOfRequest(id: int)
    ensures ReadWait(WaitRequest(id)) == Some(if -2147483648 <= id <= 2147483647 then id else 0)
    ensures var r := WaitRequest(id); |r| >= 4 && r[|r| - 4..] == "\r\n\r\n"
  {
    Regroup("GET /wait?peer_id=", Print(id), " HTTP/1.0\r\n\r\n");
    ReadValueBack("GET /wait?peer_id=", Print(id));
    EndsBlank("GET /wait?peer_id=", Print(id));
    PrintedChars(id);
    ToIntOfPrint(id);
  }
}
